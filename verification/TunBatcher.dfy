/** The TUN batching event machine of src/wfb_tun.c. */
module TunBatcher {
  import opened Bytes
  import opened Sequences

  const MTU := 1445
  const HEADER := 2   // tun_packet_hdr_t: big-endian packet_size

  type Packet = seq<Byte>

  // ---------- framing ----------

  function High(n: nat): Byte
    requires n < 0x1_0000
  {
    n / 256
  }

  function Low(n: nat): Byte { n % 256 }

  function Size(high: nat, low: nat): nat { high * 256 + low }

  predicate PacketOk(p: Packet) { 0 < |p| <= MTU - HEADER }

  function Framed(p: Packet): (f: seq<Byte>)
    requires PacketOk(p)
    ensures |f| == HEADER + |p|
  {
    [High(|p|), Low(|p|)] + p
  }

  predicate AllOk(ps: seq<Packet>) { forall i :: 0 <= i < |ps| ==> PacketOk(ps[i]) }

  function Encoded(ps: seq<Packet>): seq<Byte>
    requires AllOk(ps)
  {
    if ps == [] then [] else Framed(ps[0]) + Encoded(ps[1..])
  }

  lemma {:induction false} EncodedMore(ps: seq<Packet>, p: Packet)
    requires AllOk(ps) && PacketOk(p)
    ensures AllOk(ps + [p]) && Encoded(ps + [p]) == Encoded(ps) + Framed(p)
  {
    hide Framed;
    if ps == [] {
      assert [] + [p] == [p] && [p][1..] == [];
      assert Framed(p) + [] == Framed(p);
    } else {
      EncodedMore(ps[1..], p);
      assert (ps + [p])[1..] == ps[1..] + [p];
      assert Framed(ps[0]) + (Encoded(ps[1..]) + Framed(p)) == Framed(ps[0]) + Encoded(ps[1..]) + Framed(p);
    }
  }

  lemma EncodedOne(p: Packet)
    requires PacketOk(p)
    ensures AllOk([p]) && Encoded([p]) == Framed(p) && Encoded([]) == []
  {
    hide Framed;
    assert Framed(p) + [] == Framed(p);
  }

  /** What the unpacker takes from a datagram; `whole` says that its asserts hold. */
  datatype Unpacked = Unpacked(packets: seq<Packet>, whole: bool)

  function Unpack(d: seq<Byte>): Unpacked
    decreases |d|
  {
    if d == [] then Unpacked([], true)
    else if |d| < HEADER || HEADER + Size(d[0], d[1]) > |d| then Unpacked([], false)
    else
      var n := HEADER + Size(d[0], d[1]);
      var rest := Unpack(d[n..]);
      Unpacked([d[HEADER..n]] + rest.packets, rest.whole)
  }

  /** The unpacker gives back the packets of a batch. */
  lemma {:induction false} UnpackEncoded(ps: seq<Packet>)
    requires AllOk(ps)
    ensures Unpack(Encoded(ps)) == Unpacked(ps, true)
  {
    if ps != [] {
      var p, rest := ps[0], Encoded(ps[1..]);
      UnpackEncoded(ps[1..]);
      UnpackOne(p, rest);
      assert [p] + ps[1..] == ps;
    }
  }

  lemma UnpackOne(p: Packet, rest: seq<Byte>)
    requires PacketOk(p)
    ensures Unpack(Framed(p) + rest) == Unpacked([p] + Unpack(rest).packets, Unpack(rest).whole)
  {
    var d := Framed(p) + rest;
    assert d[0] == High(|p|) && d[1] == Low(|p|) && Size(d[0], d[1]) == |p|;
    assert d[HEADER..HEADER + |p|] == p && d[HEADER + |p|..] == rest;
  }

  // ---------- the machine ----------

  /** The buffer as packets: those of the batch, and one that did not fit.  `read`, `write` and `timer`
      are the pending events; `out` the batches sent and `taken` the packets read so far. */
  datatype Batcher = Batcher(ready: seq<Packet>, over: seq<Packet>, read: bool, write: bool, timer: bool,
                             out: seq<seq<Packet>>, taken: seq<Packet>)

  const IDLE := Batcher([], [], true, false, false, [], [])

  function Length(ps: seq<Packet>): nat {
    if ps == [] then 0 else HEADER + |ps[0]| + Length(ps[1..])
  }

  lemma {:induction false} LengthEncoded(ps: seq<Packet>)
    requires AllOk(ps)
    ensures |Encoded(ps)| == Length(ps)
  {
    if ps != [] { LengthEncoded(ps[1..]); }
  }

  lemma {:induction false} LengthMore(ps: seq<Packet>, p: Packet)
    ensures Length(ps + [p]) == Length(ps) + HEADER + |p|
  {
    if ps == [] {
      assert [] + [p] == [p] && [p][1..] == [];
    } else {
      LengthMore(ps[1..], p);
      assert (ps + [p])[1..] == ps[1..] + [p];
    }
  }

  function DataSize(b: Batcher): nat { Length(b.ready) + Length(b.over) }

  datatype Event = Read(packet: Packet) | WriteReady | Timeout

  /** An event happens only while it is pending. */
  predicate Pending(b: Batcher, ev: Event) {
    match ev case Read(p) => b.read && PacketOk(p) case WriteReady => b.write case Timeout => b.timer
  }

  /** `ev_tun_read_cb` */
  function AfterRead(b: Batcher, p: Packet, timeout: nat): Batcher {
    var size := DataSize(b) + HEADER + |p|;
    var c := if size <= MTU then b.(ready := b.ready + b.over + [p], over := []) else b.(over := b.over + [p]);
    var d := c.(taken := b.taken + [p], read := false);
    if size >= MTU || timeout == 0 then d.(write := true)
    else d.(read := true, timer := b.timer || DataSize(b) == 0)
  }

  /** `ev_socket_write_cb`, for write-ready and for the aggregation timeout. */
  function AfterWrite(b: Batcher, isTimeout: bool, timeout: nat): Batcher {
    var c := if isTimeout then b.(timer := false, read := false)
             else if timeout > 0 then b.(write := false, timer := false) else b.(write := false);
    var d := c.(out := b.out + [b.ready], ready := b.over, over := []);
    if DataSize(d) == MTU || (DataSize(d) > 0 && timeout == 0) then d.(write := true)
    else d.(read := true, timer := d.timer || (DataSize(d) > 0 && timeout > 0))
  }

  function Step(b: Batcher, ev: Event, timeout: nat): Batcher {
    match ev
    case Read(p) => AfterRead(b, p, timeout)
    case WriteReady => AfterWrite(b, false, timeout)
    case Timeout => AfterWrite(b, true, timeout)
  }

  /** All batches, one after the other. */
  function Sent(out: seq<seq<Packet>>): seq<Packet> {
    if out == [] then [] else Sent(out[..|out| - 1]) + out[|out| - 1]
  }

  /** What every callback keeps: the batch fits, at most one packet is over it, a pending read means
      that there is room, something is always pending, and no packet is lost or moved. */
  ghost predicate BatcherOk(b: Batcher, timeout: nat) {
    && AllOk(b.taken) && AllOk(b.ready) && AllOk(b.over)
    && Length(b.ready) <= MTU && |b.over| <= 1
    && (b.over != [] ==> Length(b.ready) > 0 && DataSize(b) > MTU && !b.read)
    && (b.read ==> DataSize(b) < MTU)
    && (b.read || b.write)
    && (b.timer ==> b.ready != [] && timeout > 0)
    && b.taken == Sent(b.out) + b.ready + b.over
    && (forall i :: 0 <= i < |b.out| ==> AllOk(b.out[i]) && Length(b.out[i]) <= MTU)
  }

  lemma SentMore(out: seq<seq<Packet>>, last: seq<Packet>)
    ensures Sent(out + [last]) == Sent(out) + last
  {
    assert (out + [last])[..|out|] == out;
  }

  lemma LengthZero(ps: seq<Packet>)
    ensures Length(ps) == 0 <==> ps == []
  {}

  lemma ReadKeeps(b: Batcher, p: Packet, timeout: nat)
    requires BatcherOk(b, timeout) && b.read && PacketOk(p)
    ensures BatcherOk(AfterRead(b, p, timeout), timeout)
  {
    var none: seq<Packet> := [];
    LengthMore(b.ready, p);
    LengthMore(none, p);
    LengthZero(none);
    LengthZero(b.ready);
    assert b.over == none;
    ReadSequences(Sent(b.out), b.ready, p);
    hide Length, Sent, AllOk;
    assert AllOk(b.taken + [p]) && AllOk(b.ready + [p]) && AllOk([p]) by { AllOkMore(b.taken, p); AllOkMore(b.ready, p); AllOkMore(none, p); }
    assert none + [p] == [p];
  }

  lemma AllOkMore(ps: seq<Packet>, p: Packet)
    requires PacketOk(p)
    ensures AllOk(ps) ==> AllOk(ps + [p])
    ensures AllOk([p]) && AllOk([])
  {}

  lemma ReadSequences(sent: seq<Packet>, ready: seq<Packet>, p: Packet)
    ensures var none: seq<Packet> := [];
            && ready + none + [p] == ready + [p] && none + [p] == [p]
            && sent + ready + none + [p] == sent + (ready + [p]) + none
            && sent + ready + none + [p] == sent + ready + [p]
  {}

  lemma WriteKeeps(b: Batcher, isTimeout: bool, timeout: nat)
    requires BatcherOk(b, timeout) && (if isTimeout then b.timer else b.write)
    ensures BatcherOk(AfterWrite(b, isTimeout, timeout), timeout)
  {
    var r := AfterWrite(b, isTimeout, timeout);
    SentMore(b.out, b.ready);
    LengthZero(b.over);
    LengthZero([]);
    if b.over != [] { OneLength(b.over); }
    hide Length, Sent;
    assert Sent(r.out) + r.ready + [] == Sent(r.out) + r.ready;
    assert forall i :: 0 <= i < |r.out| ==> r.out[i] == if i < |b.out| then b.out[i] else b.ready;
  }

  lemma OneLength(ps: seq<Packet>)
    requires |ps| == 1 && AllOk(ps)
    ensures 0 < Length(ps) <= MTU
  {
    assert ps == [ps[0]];
  }

  // ---------- runs ----------

  ghost function After(timeout: nat, evs: seq<Event>): Batcher {
    if evs == [] then IDLE else Step(After(timeout, evs[..|evs| - 1]), evs[|evs| - 1], timeout)
  }

  /** Any order of callbacks, each while its event is pending. */
  ghost predicate Possible(timeout: nat, evs: seq<Event>) {
    evs == [] || (Possible(timeout, evs[..|evs| - 1]) && Pending(After(timeout, evs[..|evs| - 1]), evs[|evs| - 1]))
  }

  lemma {:induction false} ReachableOk(timeout: nat, evs: seq<Event>)
    requires Possible(timeout, evs)
    ensures BatcherOk(After(timeout, evs), timeout)
  {
    if evs == [] {
      assert Sent([]) + [] + [] == [];
    } else {
      var b := After(timeout, evs[..|evs| - 1]);
      ReachableOk(timeout, evs[..|evs| - 1]);
      hide BatcherOk, AfterRead, AfterWrite;
      match evs[|evs| - 1]
      case Read(p) => { PendingRead(b, p, timeout); ReadKeeps(b, p, timeout); }
      case WriteReady => { WriteKeeps(b, false, timeout); }
      case Timeout => { WriteKeeps(b, true, timeout); }
    }
  }

  lemma PendingRead(b: Batcher, p: Packet, timeout: nat)
    requires Pending(b, Read(p))
    ensures b.read && PacketOk(p)
  {}

  /** The packets that the peer's unpacker gets out of the batches, empty ones skipped. */
  function Received(out: seq<seq<Packet>>): seq<Packet>
    requires forall i :: 0 <= i < |out| ==> AllOk(out[i])
  {
    if out == [] then []
    else
      var d := Encoded(out[|out| - 1]);
      Received(out[..|out| - 1]) + if d == [] then [] else Unpack(d).packets
  }

  lemma {:induction false} ReceivedIsSent(out: seq<seq<Packet>>)
    requires forall i :: 0 <= i < |out| ==> AllOk(out[i])
    ensures Received(out) == Sent(out)
  {
    if out != [] {
      ReceivedIsSent(out[..|out| - 1]);
      UnpackEncoded(out[|out| - 1]);
      LengthEncoded(out[|out| - 1]);
      LengthZero(out[|out| - 1]);
    }
  }

  /** Under any order of events: a pending read has room, every batch is at most MTU bytes of whole packets,
      and the unpacker gets the packets that were read, in order, less those still in the buffer. */
  lemma PacketsArriveInOrder(timeout: nat, evs: seq<Event>)
    requires Possible(timeout, evs)
    ensures var b := After(timeout, evs);
            && (b.read ==> DataSize(b) < MTU) && (b.read || b.write)
            && (forall i :: 0 <= i < |b.out| ==> AllOk(b.out[i]) && |Encoded(b.out[i])| <= MTU && Unpack(Encoded(b.out[i])).whole)
            && b.taken == Received(b.out) + b.ready + b.over
  {
    var b := After(timeout, evs);
    ReachableOk(timeout, evs);
    hide After, Possible;
    ReceivedIsSent(b.out);
    forall i | 0 <= i < |b.out|
      ensures AllOk(b.out[i]) && |Encoded(b.out[i])| <= MTU && Unpack(Encoded(b.out[i])).whole
    {
      LengthEncoded(b.out[i]);
      UnpackEncoded(b.out[i]);
    }
  }

  /** With aggregation, as long as no timeout has come, a batch is sent only once the buffer is full. */
  lemma {:induction false} SentWhenFull(timeout: nat, evs: seq<Event>)
    requires Possible(timeout, evs) && timeout > 0 && forall i :: 0 <= i < |evs| ==> !evs[i].Timeout?
    ensures After(timeout, evs).write ==> DataSize(After(timeout, evs)) >= MTU
  {
    if evs != [] {
      var b := After(timeout, evs[..|evs| - 1]);
      SentWhenFull(timeout, evs[..|evs| - 1]);
      ReachableOk(timeout, evs[..|evs| - 1]);
      match evs[|evs| - 1]
      case Read(p) => { ReadSize(b, p, timeout); }
      case WriteReady => {}
    }
  }

  lemma ReadSize(b: Batcher, p: Packet, timeout: nat)
    requires b.over == []
    ensures DataSize(AfterRead(b, p, timeout)) == DataSize(b) + HEADER + |p|
  {
    var none: seq<Packet> := [];
    LengthMore(b.ready, p);
    LengthMore(none, p);
    LengthZero(none);
    ReadSequences(none, b.ready, p);
    hide Length;
  }

  /** Packets that are held have an event pending that sends them. */
  predicate Due(b: Batcher) { b.ready != [] || b.over != [] ==> b.write || b.timer }

  lemma StepDue(b: Batcher, ev: Event, timeout: nat)
    requires Due(b) && Pending(b, ev) && (b.over != [] ==> b.ready != [])
    ensures Due(Step(b, ev, timeout))
  {
    LengthZero(b.ready);
    LengthZero(b.over);
    LengthZero([]);
    hide Length;
  }

  /** Nothing is held for good: in every reachable state with packets in the buffer the write event or the
      timeout is pending, and whichever comes sends exactly the batch, in which the oldest packet is. */
  lemma {:induction false} HeldIsDue(timeout: nat, evs: seq<Event>)
    requires Possible(timeout, evs)
    ensures var b := After(timeout, evs);
            && Due(b) && (b.over != [] ==> b.ready != [])
            && forall ev :: Pending(b, ev) && !ev.Read? ==>
                 Step(b, ev, timeout).out == b.out + [b.ready] && Step(b, ev, timeout).ready == b.over && Step(b, ev, timeout).over == []
  {
    if evs != [] {
      HeldIsDue(timeout, evs[..|evs| - 1]);
      StepDue(After(timeout, evs[..|evs| - 1]), evs[|evs| - 1], timeout);
      ReachableOk(timeout, evs);
      LengthZero(After(timeout, evs).ready);
      hide Step;
    }
    forall b: Batcher, ev: Event | !ev.Read?
      ensures Step(b, ev, timeout).out == b.out + [b.ready] && Step(b, ev, timeout).ready == b.over && Step(b, ev, timeout).over == []
    {
    }
  }

  // ---------- the objects ----------

  /** The bytes of the batches. */
  function Batches(out: seq<seq<Packet>>): (d: seq<seq<Byte>>)
    requires forall i :: 0 <= i < |out| ==> AllOk(out[i])
    ensures |d| == |out| && forall i :: 0 <= i < |d| ==> d[i] == Encoded(out[i])
  {
    seq(|out|, i requires 0 <= i < |out| => Encoded(out[i]))
  }

  /** in_packet_buffer_t with the pending events of its callbacks. */
  class PacketBuffer {
    const data: array<Byte>
    const timeout: nat          // agg_timeout_ms
    var dataSize: nat
    var batchSize: nat
    var tunRead: bool
    var socketWrite: bool
    var readTimeout: bool
    var sent: seq<seq<Byte>>
    ghost var b: Batcher

    ghost predicate Holds()
      reads this`dataSize, this`b, data
    {
      && data.Length == 2 * MTU && dataSize <= 2 * MTU && AllOk(b.ready) && AllOk(b.over)
      && data[..dataSize] == Encoded(b.ready) + Encoded(b.over)
    }

    ghost predicate Valid()
      reads this, data
    {
      && BatcherOk(b, timeout) && Holds() && batchSize == Length(b.ready)
      && tunRead == b.read && socketWrite == b.write && readTimeout == b.timer
      && sent == Batches(b.out)
    }

    constructor (timeout: nat)
      ensures Valid() && b == IDLE && this.timeout == timeout && fresh(data)
    {
      data := new Byte[2 * MTU](i => 0);
      this.timeout := timeout;
      dataSize, batchSize, tunRead, socketWrite, readTimeout := 0, 0, true, false, false;
      sent, b := [], IDLE;
    }

    /** The framed packet goes behind what is there. */
    method Append(p: Packet)
      requires PacketOk(p) && Holds() && dataSize + HEADER + |p| <= 2 * MTU
      modifies data
      ensures data[..dataSize + HEADER + |p|] == old(data[..dataSize]) + Framed(p)
    {
      ghost var was := data[..dataSize];
      data[dataSize], data[dataSize + 1] := High(|p|), Low(|p|);
      forall i | 0 <= i < |p| {
        data[dataSize + HEADER + i] := p[i];
      }
      assert data[..dataSize + HEADER + |p|] == was + Framed(p);
    }

    /** `ev_tun_read_cb` */
    method TunRead(p: Packet)
      requires Valid() && tunRead && PacketOk(p)
      modifies this`dataSize, this`batchSize, this`tunRead, this`socketWrite, this`readTimeout, this`b, data
      ensures Valid() && b == AfterRead(old(b), p, timeout)
    {
      SizeIs();
      ReadKeeps(b, p, timeout);
      ReadParts(b, p, timeout);
      ghost var r := AfterRead(b, p, timeout);
      hide BatcherOk, Framed, Encoded, Length, Sent, DataSize, AfterRead, AllOk, Batches;
      assert dataSize < MTU;
      var isNew := dataSize == 0;
      Append(p);
      dataSize := dataSize + HEADER + |p|;
      if dataSize <= MTU {
        batchSize := dataSize;
      }
      ScheduleAfterRead(isNew);
      b := r;
    }

    /** The events that a read leaves pending. */
    method ScheduleAfterRead(isNew: bool)
      modifies this`tunRead, this`socketWrite, this`readTimeout
      ensures if dataSize >= MTU || timeout == 0
              then socketWrite && !tunRead && readTimeout == old(readTimeout)
              else tunRead && socketWrite == old(socketWrite) && readTimeout == (old(readTimeout) || isNew)
    {
      tunRead := false;
      if dataSize >= MTU || timeout == 0 {
        socketWrite := true;
      } else {
        tunRead := true;
        if isNew && timeout > 0 {
          readTimeout := true;
        }
      }
    }

    lemma SizeIs()
      requires BatcherOk(b, timeout) && Holds()
      ensures dataSize == DataSize(b) && (b.read ==> b.over == [] && dataSize < MTU)
      ensures dataSize <= 2 * MTU && data[..Length(b.ready)] == Encoded(b.ready)
      ensures Length(b.ready) <= dataSize && data[Length(b.ready)..dataSize] == Encoded(b.over)
    {
      LengthEncoded(b.ready);
      LengthEncoded(b.over);
      LengthZero(b.over);
      hide Encoded, Length;
      var n := Length(b.ready);
      assert data[..n] == data[..dataSize][..n] && data[n..dataSize] == data[..dataSize][n..];
    }

    /** `ev_socket_write_cb`: it sends the batch and keeps what is over. */
    method SocketWrite(isTimeout: bool)
      requires Valid() && (if isTimeout then readTimeout else socketWrite)
      modifies this`dataSize, this`batchSize, this`tunRead, this`socketWrite, this`readTimeout, this`sent, this`b, data
      ensures Valid() && b == AfterWrite(old(b), isTimeout, timeout)
    {
      hide *;
      Parts();
      ghost var r := AfterWrite(b, isTimeout, timeout);
      WriteKeeps(b, isTimeout, timeout);
      WriteParts(b, isTimeout, timeout);
      ClearEvents(isTimeout);
      SendBatch();
      assert dataSize <= MTU;
      ScheduleAfterWrite();
      b := r;
      Whole();
    }

    lemma Parts()
      requires Valid()
      ensures BatcherOk(b, timeout) && Holds() && batchSize == Length(b.ready)
      ensures tunRead == b.read && socketWrite == b.write && readTimeout == b.timer
      ensures (forall i :: 0 <= i < |b.out| ==> AllOk(b.out[i])) && sent == Batches(b.out)
    {}

    lemma Whole()
      requires BatcherOk(b, timeout) && data.Length == 2 * MTU && dataSize <= 2 * MTU && batchSize == Length(b.ready)
      requires AllOk(b.ready) && AllOk(b.over) && data[..dataSize] == Encoded(b.ready) + Encoded(b.over)
      requires tunRead == b.read && socketWrite == b.write && readTimeout == b.timer
      requires (forall i :: 0 <= i < |b.out| ==> AllOk(b.out[i])) && sent == Batches(b.out)
      ensures Valid()
    {}

    /** The batch goes out and what is over it stays. */
    method SendBatch()
      requires BatcherOk(b, timeout) && Holds() && batchSize == Length(b.ready)
      modifies this`dataSize, this`batchSize, this`sent, data
      ensures sent == old(sent) + [Encoded(b.ready)] && data.Length == 2 * MTU
      ensures dataSize == batchSize == Length(b.over) && dataSize <= 2 * MTU && data[..dataSize] == Encoded(b.over)
    {
      SizeIs();
      LengthFits(b, timeout);
      hide BatcherOk, Encoded, Length;
      assert batchSize <= MTU;
      sent := sent + [data[..batchSize]];
      DropBatch();
    }

    /** The events that a write or a timeout ends. */
    method ClearEvents(isTimeout: bool)
      modifies this`tunRead, this`socketWrite, this`readTimeout
      ensures tunRead == (!isTimeout && old(tunRead)) && socketWrite == (isTimeout && old(socketWrite))
      ensures readTimeout == (!isTimeout && timeout == 0 && old(readTimeout))
    {
      if isTimeout {
        readTimeout, tunRead := false, false;
      } else {
        socketWrite := false;
        if timeout > 0 { readTimeout := false; }
      }
    }

    /** The events that it leaves pending. */
    method ScheduleAfterWrite()
      modifies this`tunRead, this`socketWrite, this`readTimeout
      ensures if dataSize == MTU || (dataSize > 0 && timeout == 0)
              then socketWrite && tunRead == old(tunRead) && readTimeout == old(readTimeout)
              else tunRead && socketWrite == old(socketWrite)
                   && readTimeout == (old(readTimeout) || (dataSize > 0 && timeout > 0))
    {
      if dataSize == MTU || (dataSize > 0 && timeout == 0) {
        socketWrite := true;
      } else {
        tunRead := true;
        if dataSize > 0 && timeout > 0 {
          readTimeout := true;
        }
      }
    }

    /** What is over the batch moves to the front of the buffer. */
    method DropBatch()
      requires batchSize <= dataSize <= data.Length
      modifies this`dataSize, this`batchSize, data
      ensures dataSize == batchSize == old(dataSize) - old(batchSize)
      ensures data[..dataSize] == old(data[batchSize..dataSize])
    {
      ghost var rest := data[batchSize..dataSize];
      if dataSize > batchSize {
        forall i | 0 <= i < dataSize - batchSize {
          data[i] := data[batchSize + i];
        }
        dataSize := dataSize - batchSize;
        batchSize := dataSize;
      } else {
        dataSize, batchSize := 0, 0;
      }
      assert data[..dataSize] == rest;
    }
  }

  /** What a read does to the bytes and the events. */
  lemma ReadParts(b: Batcher, p: Packet, timeout: nat)
    requires BatcherOk(b, timeout) && b.read && PacketOk(p)
    ensures var r, size := AfterRead(b, p, timeout), DataSize(b) + HEADER + |p|;
            && AllOk(r.ready) && AllOk(r.over) && AllOk(b.ready) && AllOk(b.over) && r.out == b.out
            && Encoded(r.ready) + Encoded(r.over) == Encoded(b.ready) + Encoded(b.over) + Framed(p)
            && Length(r.ready) == (if size <= MTU then size else Length(b.ready))
            && (if size >= MTU || timeout == 0 then r.write && !r.read && r.timer == b.timer
                else r.read && r.write == b.write && r.timer == (b.timer || DataSize(b) == 0))
  {
    var none: seq<Packet> := [];
    EmptyCoded();
    AllOkMore(b.ready, p);
    EncodedMore(b.ready, p);
    EncodedOne(p);
    LengthMore(b.ready, p);
    LengthZero(b.over);
    ReadSequences(none, b.ready, p);
    assert b.over == none;
    hide Encoded, Framed, Length, Sent, AllOk;
    assert Encoded(b.ready) + [] == Encoded(b.ready);
    assert Encoded(b.ready + [p]) + [] == Encoded(b.ready + [p]);
  }

  /** What a write does to the bytes and the events. */
  lemma WriteParts(b: Batcher, isTimeout: bool, timeout: nat)
    requires BatcherOk(b, timeout)
    ensures var r, size := AfterWrite(b, isTimeout, timeout), Length(b.over);
            && AllOk(r.ready) && AllOk(r.over) && AllOk(b.ready) && AllOk(b.over)
            && size <= MTU && Length(b.ready) <= MTU && DataSize(b) == Length(b.ready) + size
            && Encoded(r.ready) + Encoded(r.over) == Encoded(b.over) && Length(r.ready) == size
            && (forall i :: 0 <= i < |b.out| ==> AllOk(b.out[i])) && (forall i :: 0 <= i < |r.out| ==> AllOk(r.out[i]))
            && Batches(r.out) == Batches(b.out) + [Encoded(b.ready)]
            && var timer := !isTimeout && timeout == 0 && b.timer;
               if size == MTU || (size > 0 && timeout == 0)
               then r.write && r.read == (!isTimeout && b.read) && r.timer == timer
               else r.read && r.write == (isTimeout && b.write) && r.timer == (timer || (size > 0 && timeout > 0))
  {
    EmptyCoded();
    OverFits(b, timeout);
    BatchesMore(b);
    hide Encoded, Length, Sent, AllOk, Batches;
    assert Encoded(b.over) + [] == Encoded(b.over);
  }

  lemma EmptyCoded()
    ensures Encoded([]) == [] && Length([]) == 0
  {}

  lemma LengthFits(b: Batcher, timeout: nat)
    requires BatcherOk(b, timeout)
    ensures Length(b.ready) <= MTU && DataSize(b) == Length(b.ready) + Length(b.over)
  {}

  lemma OverFits(b: Batcher, timeout: nat)
    requires BatcherOk(b, timeout)
    ensures Length(b.ready) <= MTU && Length(b.over) <= MTU
  {
    LengthZero(b.over);
    if b.over != [] { OneLength(b.over); }
  }

  lemma BatchesMore(b: Batcher)
    requires AllOk(b.ready) && forall i :: 0 <= i < |b.out| ==> AllOk(b.out[i])
    ensures forall i :: 0 <= i < |b.out + [b.ready]| ==> AllOk((b.out + [b.ready])[i])
    ensures Batches(b.out + [b.ready]) == Batches(b.out) + [Encoded(b.ready)]
  {
    assert forall i :: 0 <= i < |b.out + [b.ready]| ==> (b.out + [b.ready])[i] == if i < |b.out| then b.out[i] else b.ready;
    hide Encoded, AllOk;
  }

  /** out_packet_buffer_t with the pending events of its callbacks. */
  class UnpackBuffer {
    const data: array<Byte>
    var dataSize: nat
    var offset: nat
    var tunWrite: bool
    var socketRead: bool
    var written: seq<Packet>

    /** While a write is pending there is a whole packet at the offset, and whole ones up to the end. */
    ghost predicate Valid()
      reads this, data
    {
      && data.Length == MTU && (tunWrite <==> !socketRead)
      && (tunWrite ==> offset < dataSize <= MTU && Unpack(data[offset..dataSize]).whole)
    }

    constructor ()
      ensures Valid() && socketRead && written == [] && fresh(data)
    {
      data := new Byte[MTU](i => 0);
      dataSize, offset, tunWrite, socketRead, written := 0, 0, false, true, [];
    }

    /** `ev_socket_read_cb`; an empty datagram is a ping. */
    method SocketRead(d: seq<Byte>)
      requires Valid() && socketRead && |d| <= MTU && Unpack(d).whole
      modifies this`dataSize, this`offset, this`tunWrite, this`socketRead, data
      ensures Valid() && tunWrite == (d != [])
      ensures tunWrite ==> offset < dataSize <= MTU && data[offset..dataSize] == d
    {
      if d == [] {
        return;
      }
      forall i | 0 <= i < |d| {
        data[i] := d[i];
      }
      offset, dataSize := 0, |d|;
      assert data[offset..dataSize] == d;
      tunWrite, socketRead := true, false;
    }

    /** `ev_tun_write_cb`: its asserts hold, and one packet is written. */
    method TunWrite()
      requires Valid() && tunWrite
      modifies this`dataSize, this`offset, this`tunWrite, this`socketRead, this`written
      ensures Valid()
      ensures var u := Unpack(old(data[offset..dataSize]));
              && u.packets != [] && written == old(written) + [u.packets[0]]
              && u.packets[1..] == if tunWrite then Unpack(data[offset..dataSize]).packets else []
      ensures tunWrite ==> dataSize == old(dataSize) && offset > old(offset)
    {
      hide Unpack;
      ghost var all, d := data[..], data[offset..dataSize];
      assert d == all[offset..dataSize] && d != [];
      UnpackFront(d);
      EmptyUnpack();
      assert d[0] == data[offset] && d[1] == data[offset + 1];
      var size := Size(data[offset], data[offset + 1]);
      SliceOf(all, offset, dataSize, HEADER, HEADER + size);
      SliceOf(all, offset, dataSize, HEADER + size, dataSize - offset);
      written := written + [data[offset + HEADER..offset + HEADER + size]];
      offset := offset + HEADER + size;
      if offset >= dataSize {
        assert d[HEADER + size..] == [];
        offset, dataSize, tunWrite, socketRead := 0, 0, false, true;
      }
    }

    /** A datagram and all the writes it brings about: every packet comes out, in order. */
    method Deliver(d: seq<Byte>)
      requires Valid() && socketRead && |d| <= MTU && Unpack(d).whole
      modifies this, data
      ensures Valid() && socketRead && written == old(written) + Unpack(d).packets
    {
      hide Unpack;
      EmptyUnpack();
      SocketRead(d);
      ghost var rest := Unpack(d).packets;
      while tunWrite
        invariant Valid() && written + rest == old(written) + Unpack(d).packets
        invariant rest == if tunWrite then Unpack(data[offset..dataSize]).packets else []
        decreases if tunWrite then dataSize - offset else 0, tunWrite
      {
        ghost var now := written;
        TunWrite();
        assert rest == [rest[0]] + rest[1..];
        Assoc(now, [rest[0]], rest[1..]);
        rest := rest[1..];
      }
      NoneRight(written);
    }
  }

  lemma EmptyUnpack()
    ensures Unpack([]) == Unpacked([], true)
  {}

  /** A datagram that unpacks whole starts with a whole packet. */
  lemma UnpackFront(d: seq<Byte>)
    requires d != [] && Unpack(d).whole
    ensures HEADER <= |d| && HEADER + Size(d[0], d[1]) <= |d|
    ensures var n := HEADER + Size(d[0], d[1]);
            Unpack(d).packets == [d[HEADER..n]] + Unpack(d[n..]).packets && Unpack(d[n..]).whole
  {}
}
