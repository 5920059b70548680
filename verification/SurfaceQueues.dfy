/**
  The two bounded queues between the shell and a surface process. Both merge a packet
  into their tail where that loses nothing, and both count bytes.
 */
module SurfaceQueues {
  import opened Wrappers
  import opened SinglePrecision
  import opened SurfacePackets
  import opened Compaction

  const QUEUE_LIMIT := 0x80_0000
  const SHELL_MESSAGE_SIZE := 24
  const HOSTED_MESSAGE_SIZE := 16

  datatype Queue = Queue(packets: seq<Packet>, bytes: nat)

  const EMPTY := Queue([], 0)

  /** The bytes that queued packets account for, with what each costs besides its payload. */
  function TotalSize(ps: seq<Packet>, overhead: nat): nat {
    if ps == [] then 0 else TotalSize(ps[..|ps| - 1], overhead) + overhead + Size(ps[|ps| - 1])
  }

  /** The accounting is exact and within the limit. */
  ghost predicate QueueOk(q: Queue, overhead: nat) {
    && q.bytes == TotalSize(q.packets, overhead) && q.bytes <= QUEUE_LIMIT
    && forall k :: 0 <= k < |q.packets| ==> Fits(q.packets[k])
  }

  lemma QueuedFits(q: Queue, overhead: nat, k: nat)
    requires QueueOk(q, overhead) && k < |q.packets|
    ensures Fits(q.packets[k])
  {
  }

  lemma {:induction false} TotalSizeJoins(xs: seq<Packet>, ys: seq<Packet>, overhead: nat)
    ensures TotalSize(xs + ys, overhead) == TotalSize(xs, overhead) + TotalSize(ys, overhead)
  {
    if ys == [] {
      assert xs + ys == xs;
    } else {
      assert (xs + ys)[..|xs + ys| - 1] == xs + ys[..|ys| - 1];
      TotalSizeJoins(xs, ys[..|ys| - 1], overhead);
    }
  }

  lemma OneSize(p: Packet, overhead: nat)
    ensures TotalSize([p], overhead) == overhead + Size(p)
  {
    assert [p][..0] == [];
  }

  /** A queue with a packet added or merged into its tail; None when the connection must fail. */
  function Put(q: Queue, p: Packet, merges: bool, overhead: nat): Option<Queue> {
    var n := |q.packets|;
    if n > 0 && merges && Merges(q.packets[n - 1], p) then
      Some(q.(packets := q.packets[..n - 1] + [Merge(q.packets[n - 1], p)]))
    else if q.bytes + overhead + Size(p) > QUEUE_LIMIT then None
    else Some(Queue(q.packets + [p], q.bytes + overhead + Size(p)))
  }

  /** What the shell does with a packet to send. */
  function ShellSend(q: Queue, p: Packet): Option<Queue> {
    if Size(p) > MAX_PAYLOAD then None else Put(q, p, true, SHELL_MESSAGE_SIZE)
  }

  /** What the reader of the surface process does with an accepted packet: only motions merge. */
  function ReaderEnqueue(q: Queue, p: Packet): Option<Queue> {
    Put(q, p, IsMotion(p), HOSTED_MESSAGE_SIZE + 1)
  }

  function Take(q: Queue, overhead: nat): (r: (Packet, Queue))
    requires q.packets != [] && q.bytes >= overhead + Size(q.packets[0])
  {
    (q.packets[0], Queue(q.packets[1..], q.bytes - (overhead + Size(q.packets[0]))))
  }

  lemma PutKeeps(q: Queue, p: Packet, merges: bool, overhead: nat)
    requires QueueOk(q, overhead) && Fits(p) && Put(q, p, merges, overhead).Some?
    ensures QueueOk(Put(q, p, merges, overhead).value, overhead)
  {
    hide Merges, Merge, Sum;
    var n := |q.packets|;
    OneSize(p, overhead);
    TotalSizeJoins(q.packets, [p], overhead);
    if n > 0 && merges && Merges(q.packets[n - 1], p) {
      var m := Merge(q.packets[n - 1], p);
      assert (q.packets[..n - 1] + [m])[..n - 1] == q.packets[..n - 1];
    }
  }

  lemma ShellSendKeeps(q: Queue, p: Packet)
    requires QueueOk(q, SHELL_MESSAGE_SIZE) && WellFormed(p)
    ensures ShellSend(q, p).Some? ==> QueueOk(ShellSend(q, p).value, SHELL_MESSAGE_SIZE)
  {
    hide QueueOk, Put;
    if Size(p) <= MAX_PAYLOAD && Put(q, p, true, SHELL_MESSAGE_SIZE).Some? {
      PutKeeps(q, p, true, SHELL_MESSAGE_SIZE);
    }
  }

  lemma TakeKeeps(q: Queue, overhead: nat)
    requires QueueOk(q, overhead) && q.packets != []
    ensures q.bytes >= overhead + Size(q.packets[0]) && QueueOk(Take(q, overhead).1, overhead)
  {
    OneSize(q.packets[0], overhead);
    TotalSizeJoins([q.packets[0]], q.packets[1..], overhead);
    assert [q.packets[0]] + q.packets[1..] == q.packets;
  }

  /** Sending keeps what is queued a compaction of what was sent. */
  lemma PutCompacts(sent: seq<Packet>, ahead: seq<Packet>, q: Queue, p: Packet, merges: bool, overhead: nat)
    requires Compacts(sent, ahead + q.packets) && Put(q, p, merges, overhead).Some?
    ensures Compacts(sent + [p], ahead + Put(q, p, merges, overhead).value.packets)
  {
    hide Merges, Merge, Compacts;
    var n := |q.packets|;
    if n > 0 && merges && Merges(q.packets[n - 1], p) {
      var tail, front := q.packets[n - 1], q.packets[..n - 1];
      assert ahead + q.packets == (ahead + front) + [tail];
      CompactsMergeLast(sent, ahead + front, tail, p);
      assert (ahead + front) + [Merge(tail, p)] == ahead + (front + [Merge(tail, p)]);
    } else {
      CompactsAppend(sent, ahead + q.packets, p);
      assert ahead + q.packets + [p] == ahead + (q.packets + [p]);
    }
  }

  /** Moving a packet into a queue keeps the whole a compaction. */
  lemma MoveCompacts(sent: seq<Packet>, ahead: seq<Packet>, q: Queue, p: Packet, merges: bool, overhead: nat,
                     behind: seq<Packet>)
    requires Compacts(sent, ahead + q.packets + [p] + behind) && Put(q, p, merges, overhead).Some?
    ensures Compacts(sent, ahead + Put(q, p, merges, overhead).value.packets + behind)
  {
    hide Merges, Merge, Compacts;
    var n := |q.packets|;
    if n > 0 && merges && Merges(q.packets[n - 1], p) {
      var tail, front := q.packets[n - 1], q.packets[..n - 1];
      assert ahead + q.packets + [p] + behind == (ahead + front) + [tail, p] + behind;
      CompactsMerge(sent, ahead + front, tail, p, behind);
      assert (ahead + front) + [Merge(tail, p)] + behind == ahead + (front + [Merge(tail, p)]) + behind;
    } else {
      assert ahead + (q.packets + [p]) + behind == ahead + q.packets + [p] + behind;
    }
  }

  /** The shell's outbound queue. */
  class OutboundQueue {
    var packets: seq<Packet>
    var bytes: nat

    function Contents(): Queue
      reads this
    {
      Queue(packets, bytes)
    }

    constructor ()
      ensures Contents() == EMPTY && QueueOk(Contents(), SHELL_MESSAGE_SIZE)
    {
      packets, bytes := [], 0;
    }

    /** Queues a packet; the connection fails when the packet is too large or the queue is full. */
    method Send(p: Packet) returns (ok: bool)
      requires QueueOk(Contents(), SHELL_MESSAGE_SIZE) && WellFormed(p)
      modifies this
      ensures ok <==> ShellSend(old(Contents()), p).Some?
      ensures Contents() == if ok then ShellSend(old(Contents()), p).value else old(Contents())
      ensures QueueOk(Contents(), SHELL_MESSAGE_SIZE)
    {
      hide QueueOk, Sum;
      if Size(p) > MAX_PAYLOAD {
        return false;
      }
      ghost var before := Contents();
      var n := |packets|;
      if n > 0 {
        var previous := packets[n - 1];
        QueuedFits(before, SHELL_MESSAGE_SIZE, n - 1);
        var replace := TypeOf(previous) == TypeOf(p) && Size(previous) == Size(p) && p.Configure?;
        var next := p;
        if previous.Input? && p.Input? && Size(previous) == Size(p) == INPUT_SIZE
           && previous.epoch == p.epoch && previous.event.Motion? && p.event.Motion? {
          next := Moving(p, Sum(p.event.xrel, previous.event.xrel), Sum(p.event.yrel, previous.event.yrel));
          replace := true;
        }
        if replace {
          packets := packets[..n - 1] + [next];
          PutKeeps(before, p, true, SHELL_MESSAGE_SIZE);
          return true;
        }
      }
      if bytes + SHELL_MESSAGE_SIZE + Size(p) > QUEUE_LIMIT {
        return false;
      }
      PutKeeps(before, p, true, SHELL_MESSAGE_SIZE);
      packets := packets + [p];
      bytes := bytes + SHELL_MESSAGE_SIZE + Size(p);
      return true;
    }

    /** Takes the oldest packet for writing. */
    method Pop() returns (p: Packet)
      requires QueueOk(Contents(), SHELL_MESSAGE_SIZE) && packets != []
      modifies this
      ensures old(Contents()).bytes >= SHELL_MESSAGE_SIZE + Size(old(packets)[0])
      ensures (p, Contents()) == Take(old(Contents()), SHELL_MESSAGE_SIZE)
      ensures QueueOk(Contents(), SHELL_MESSAGE_SIZE)
    {
      TakeKeeps(Contents(), SHELL_MESSAGE_SIZE);
      p := packets[0];
      packets := packets[1..];
      bytes := bytes - (SHELL_MESSAGE_SIZE + Size(p));
    }
  }

  /** The inbound queue of a surface process. */
  class InboundQueue {
    var packets: seq<Packet>
    var bytes: nat

    function Contents(): Queue
      reads this
    {
      Queue(packets, bytes)
    }

    constructor ()
      ensures Contents() == EMPTY && QueueOk(Contents(), HOSTED_MESSAGE_SIZE + 1)
    {
      packets, bytes := [], 0;
    }

    /** Queues a packet from the pipe; the connection is lost when the queue is full. */
    method Enqueue(p: Packet) returns (ok: bool)
      requires QueueOk(Contents(), HOSTED_MESSAGE_SIZE + 1) && Fits(p)
      modifies this
      ensures ok <==> ReaderEnqueue(old(Contents()), p).Some?
      ensures ok ==> Contents() == ReaderEnqueue(old(Contents()), p).value
      ensures ok ==> QueueOk(Contents(), HOSTED_MESSAGE_SIZE + 1)
      ensures !ok ==> packets == old(packets)
    {
      hide QueueOk, Sum;
      ghost var before := Contents();
      var n := |packets|;
      if p.Input? && Size(p) == INPUT_SIZE && n > 0 && packets[n - 1].Input? && Size(packets[n - 1]) == Size(p) {
        var previous := packets[n - 1];
        if p.event.Motion? && previous.event.Motion? && p.epoch == previous.epoch {
          var next := Moving(p, Sum(p.event.xrel, previous.event.xrel), Sum(p.event.yrel, previous.event.yrel));
          packets := packets[..n - 1] + [next];
          PutKeeps(before, p, true, HOSTED_MESSAGE_SIZE + 1);
          return true;
        }
      }
      bytes := bytes + HOSTED_MESSAGE_SIZE + Size(p) + 1;
      if bytes > QUEUE_LIMIT {
        return false;
      }
      PutKeeps(before, p, IsMotion(p), HOSTED_MESSAGE_SIZE + 1);
      packets := packets + [p];
      return true;
    }

    /** Takes the oldest packet for dispatch. */
    method Pop() returns (p: Packet)
      requires QueueOk(Contents(), HOSTED_MESSAGE_SIZE + 1) && packets != []
      modifies this
      ensures old(Contents()).bytes >= HOSTED_MESSAGE_SIZE + 1 + Size(old(packets)[0])
      ensures (p, Contents()) == Take(old(Contents()), HOSTED_MESSAGE_SIZE + 1)
      ensures QueueOk(Contents(), HOSTED_MESSAGE_SIZE + 1)
    {
      TakeKeeps(Contents(), HOSTED_MESSAGE_SIZE + 1);
      p := packets[0];
      packets := packets[1..];
      bytes := bytes - (HOSTED_MESSAGE_SIZE + 1 + Size(p));
    }
  }
}
