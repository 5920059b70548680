/**
  The framed byte pipe: an eight-byte header and a payload, moved by transfers that
  may each be partial.
 */
module IpcPipe {
  import opened Wrappers
  import opened ByteOrder
  import opened PacketBytes
  import opened SurfacePackets

  const HEADER_SIZE := 8

  datatype Header = Header(size: nat, kind: nat, version: nat)

  function EncodeHeader(h: Header): (s: seq<byte>)
    ensures |s| == HEADER_SIZE
  {
    LittleEndian(h.size, 4) + LittleEndian(h.kind, 2) + LittleEndian(h.version, 2)
  }

  function DecodeHeader(s: seq<byte>): Header
    requires |s| == HEADER_SIZE
  {
    Header(FromLittleEndian(s[..4]), FromLittleEndian(s[4..6]), FromLittleEndian(s[6..]))
  }

  lemma HeaderRoundTrip(h: Header)
    requires h.size < 0x1_0000_0000 && h.kind < 0x1_0000 && h.version < 0x1_0000
    ensures DecodeHeader(EncodeHeader(h)) == h
  {
    hide LittleEndian, FromLittleEndian;
    var s := EncodeHeader(h);
    assert s[..4] == LittleEndian(h.size, 4) && s[4..6] == LittleEndian(h.kind, 2)
           && s[6..] == LittleEndian(h.version, 2);
    Widths();
    LittleEndianRoundTrip(h.size, 4);
    LittleEndianRoundTrip(h.kind, 2);
    LittleEndianRoundTrip(h.version, 2);
  }

  /** A packet as bytes. */
  function Record(p: Packet): seq<byte> {
    EncodeHeader(Header(Size(p), TypeOf(p), PROTOCOL_VERSION)) + Payload(p)
  }

  function Records(ps: seq<Packet>): seq<byte> {
    if ps == [] then [] else Record(ps[0]) + Records(ps[1..])
  }

  /** The header check of a reader. */
  predicate HeaderOk(h: Header, version: nat, maxPayload: nat, capacity: nat) {
    h.version == version && h.size <= maxPayload && h.size <= capacity
  }

  /** What starts with a packet's header is the packet, once it has the header's length. */
  lemma RecordIsDelimited(p: Packet, more: seq<byte>)
    requires Fits(p)
    ensures
      var all := Record(p) + more;
      var n := HEADER_SIZE + Size(p);
      && |all| >= n && DecodeHeader(all[..HEADER_SIZE]) == Header(Size(p), TypeOf(p), PROTOCOL_VERSION)
      && all[..n] == Record(p) && all[n..] == more
      && Parse(TypeOf(p), all[HEADER_SIZE..n]) == Some(p)
  {
    hide EncodeHeader, DecodeHeader, Payload, Parse;
    PacketRoundTrip(p);
    var h := Header(Size(p), TypeOf(p), PROTOCOL_VERSION);
    var all := Record(p) + more;
    var n := HEADER_SIZE + Size(p);
    HeaderRoundTrip(h);
    assert all[..HEADER_SIZE] == EncodeHeader(h);
    assert all[HEADER_SIZE..n] == Payload(p);
  }

  // ---- Partial transfers ----

  /**
    How many of `size` bytes a series of transfers moves. A transfer of no bytes is a
    failure, as is the end of the series: a timeout, or a request to stop.
   */
  function Transferred(transfers: seq<nat>, size: nat): (n: nat)
    ensures n <= size
    decreases |transfers|
  {
    if size == 0 || transfers == [] || transfers[0] == 0 then 0
    else
      var first := if transfers[0] < size then transfers[0] else size;
      first + Transferred(transfers[1..], size - first)
  }

  lemma OneTransfer(transfers: seq<nat>, i: nat, size: nat)
    requires i < |transfers| && size > 0
    ensures
      var first := if transfers[i] < size then transfers[i] else size;
      Transferred(transfers[i..], size) == if transfers[i] == 0 then 0
        else first + Transferred(transfers[i + 1..], size - first)
  {
    assert transfers[i..][1..] == transfers[i + 1..];
  }

  lemma NoTransfer(transfers: seq<nat>, size: nat)
    ensures Transferred([], size) == 0 && Transferred(transfers, 0) == 0
  {
  }

  class Pipe {
    const version: nat
    const maxPayload: nat
    var bytes: seq<byte>

    constructor (version: nat, maxPayload: nat)
      ensures this.version == version && this.maxPayload == maxPayload && bytes == []
    {
      this.version, this.maxPayload, bytes := version, maxPayload, [];
    }

    /** Writes until all is written or a transfer fails. */
    method TransferOut(data: seq<byte>, transfers: seq<nat>) returns (ok: bool)
      modifies this
      ensures bytes == old(bytes) + data[..Transferred(transfers, |data|)]
      ensures ok <==> Transferred(transfers, |data|) == |data|
    {
      hide Transferred;
      var cursor: nat, i: nat := 0, 0;
      while cursor < |data|
        invariant cursor <= |data| && i <= |transfers|
        invariant bytes == old(bytes) + data[..cursor]
        invariant Transferred(transfers, |data|) == cursor + Transferred(transfers[i..], |data| - cursor)
        decreases |transfers| - i
      {
        NoTransfer(transfers, |data| - cursor);
        assert i == |transfers| ==> transfers[i..] == [];
        if i < |transfers| {
          OneTransfer(transfers, i, |data| - cursor);
        }
        if i == |transfers| || transfers[i] == 0 {
          return false;
        }
        var done: nat := if transfers[i] < |data| - cursor then transfers[i] else |data| - cursor;
        bytes := bytes + data[cursor..cursor + done];
        assert data[..cursor + done] == data[..cursor] + data[cursor..cursor + done];
        cursor := cursor + done;
        i := i + 1;
      }
      NoTransfer(transfers[i..], 0);
      return true;
    }

    /** Reads until `size` bytes are read, nothing comes, or a transfer fails. */
    method TransferIn(size: nat, transfers: seq<nat>) returns (ok: bool, data: seq<byte>)
      modifies this
      ensures |data| <= size && old(bytes) == data + bytes
      ensures ok <==> |data| == size
      ensures size <= |old(bytes)| ==> |data| == Transferred(transfers, size)
    {
      hide Transferred;
      data := [];
      var i: nat := 0;
      while |data| < size
        invariant |data| <= size && i <= |transfers|
        invariant old(bytes) == data + bytes
        invariant size <= |old(bytes)| ==>
                    Transferred(transfers, size) == |data| + Transferred(transfers[i..], size - |data|)
        decreases |transfers| - i
      {
        var wanted: nat := size - |data|;
        NoTransfer(transfers, wanted);
        assert i == |transfers| ==> transfers[i..] == [];
        if i < |transfers| {
          OneTransfer(transfers, i, wanted);
        }
        if i == |transfers| || transfers[i] == 0 || |bytes| == 0 {
          return false, data;
        }
        var done: nat := if transfers[i] < wanted then transfers[i] else wanted;
        done := if |bytes| < done then |bytes| else done;
        data := data + bytes[..done];
        bytes := bytes[done..];
        i := i + 1;
      }
      NoTransfer(transfers[i..], 0);
      return true, data;
    }

    /** Frames a payload and writes it as one record. */
    method Write(kind: nat, payload: seq<byte>, transfers: seq<nat>) returns (ok: bool)
      modifies this
      ensures |payload| > maxPayload ==> !ok && bytes == old(bytes)
      ensures |payload| <= maxPayload ==>
                var record := EncodeHeader(Header(|payload|, kind, version)) + payload;
                && bytes == old(bytes) + record[..Transferred(transfers, |record|)]
                && (ok ==> bytes == old(bytes) + record)
                && (ok <==> Transferred(transfers, |record|) == |record|)
    {
      if |payload| > maxPayload {
        return false;
      }
      var record := EncodeHeader(Header(|payload|, kind, version)) + payload;
      ok := TransferOut(record, transfers);
      assert record[..|record|] == record;
    }

    /**
      Reads one record: the header, checked, then its payload. After a whole record was written,
      any transfers that move both parts give it back.
     */
    method Read(capacity: nat, headerTransfers: seq<nat>, payloadTransfers: seq<nat>)
      returns (message: Option<(nat, seq<byte>)>)
      modifies this
      ensures message.Some? ==>
                exists h: Header :: HeaderOk(h, version, maxPayload, capacity) && h.kind == message.value.0
                  && h.size == |message.value.1|
                                    && |old(bytes)| >= HEADER_SIZE && h == DecodeHeader(old(bytes)[..HEADER_SIZE])
                                    && old(bytes)[HEADER_SIZE..] == message.value.1 + bytes
      ensures |old(bytes)| >= HEADER_SIZE ==>
                var h := DecodeHeader(old(bytes)[..HEADER_SIZE]);
                && (message.Some? ==> HeaderOk(h, version, maxPayload, capacity))
                && (HeaderOk(h, version, maxPayload, capacity) && |old(bytes)| >= HEADER_SIZE + h.size ==>
                      (message.Some? <==> Transferred(headerTransfers, HEADER_SIZE) == HEADER_SIZE
                                          && Transferred(payloadTransfers, h.size) == h.size))
    {
      hide DecodeHeader, Transferred;
      var ok, head := TransferIn(HEADER_SIZE, headerTransfers);
      if !ok {
        return None;
      }
      var h := DecodeHeader(head);
      assert old(bytes)[..HEADER_SIZE] == head && old(bytes)[HEADER_SIZE..] == bytes;
      if !HeaderOk(h, version, maxPayload, capacity) {
        return None;
      }
      var payload;
      ok, payload := TransferIn(h.size, payloadTransfers);
      if !ok {
        return None;
      }
      return Some((h.kind, payload));
    }
  }

  /** Whatever the transfers, a record that was written whole is read back whole. */
  method RelayPacket(p: Packet, out: seq<nat>, headerIn: seq<nat>, payloadIn: seq<nat>) returns (q: Option<Packet>)
    requires Fits(p)
    requires Transferred(out, HEADER_SIZE + Size(p)) == HEADER_SIZE + Size(p)
    requires Transferred(headerIn, HEADER_SIZE) == HEADER_SIZE && Transferred(payloadIn, Size(p)) == Size(p)
    ensures q == Some(p)
  {
    hide DecodeHeader, EncodeHeader, Transferred, Payload, Parse;
    RecordIsDelimited(p, []);
    var pipe := new Pipe(PROTOCOL_VERSION, MAX_PAYLOAD);
    var ok := pipe.Write(TypeOf(p), Payload(p), out);
    assert pipe.bytes == Record(p) + [] && pipe.bytes[..HEADER_SIZE + Size(p)] == pipe.bytes;
    ghost var written := pipe.bytes;
    var message := pipe.Read(MAX_PAYLOAD, headerIn, payloadIn);
    assert message.Some?;
    var (kind, payload) := message.value;
    assert payload == written[HEADER_SIZE..HEADER_SIZE + Size(p)];
    q := Parse(kind, payload);
  }
}
