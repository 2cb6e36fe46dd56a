/** Sender, a channel that may drop, duplicate and reorder packets, and receiver. */
module EndToEnd {
  import opened Bytes
  import opened WireFormat
  import opened Reassembly
  import opened ReassemblyInvariants
  import opened BlockSender
  import opened Delivery
  import opened InOrderDelivery

  // ---------- the sender's run ----------

  /** One call of the sender's `send_packet`. */
  datatype Submission = Submission(flags: Byte, payload: seq<Byte>)

  ghost predicate Fitting(inputs: seq<Submission>) {
    forall i :: 0 <= i < |inputs| ==> |inputs[i].payload| <= MAX_PAYLOAD_SIZE
  }

  ghost function Sent(k: nat, inputs: seq<Submission>): (s: Sender)
    requires k >= 1 && Fitting(inputs)
    ensures SenderOk(s, k)
  {
    if inputs == [] then Sender(0, [])
    else
      var last := inputs[|inputs| - 1];
      Step(Sent(k, inputs[..|inputs| - 1]), k, last.flags, last.payload)
  }

  /** Everything the sender puts on the air. */
  ghost function Air(k: nat, n: nat, session: nat, node: Byte, inputs: seq<Submission>): seq<Packet>
    requires CodeParameters(k, n) && Fitting(inputs)
  {
    if inputs == [] then []
    else
      var before, last := inputs[..|inputs| - 1], inputs[|inputs| - 1];
      Air(k, n, session, node, before) + Emitted(Sent(k, before), k, n, session, node, last.flags, last.payload)
  }

  /** The framed payloads it took, in order. */
  ghost function Frames(k: nat, inputs: seq<Submission>): (f: seq<seq<Byte>>)
    requires k >= 1 && Fitting(inputs)
    ensures Framed(f)
  {
    if inputs == [] then []
    else
      var before, last := inputs[..|inputs| - 1], inputs[|inputs| - 1];
      if Takes(Sent(k, before), last.flags) then Frames(k, before) + [Frame(last.flags, last.payload)]
      else Frames(k, before)
  }

  lemma StepFrames(s: Sender, f: seq<seq<Byte>>, k: nat, flags: Byte, payload: seq<Byte>)
    requires SenderOk(s, k) && |payload| <= MAX_PAYLOAD_SIZE
    requires |f| == s.block * k + |s.open| && s.open == f[s.block * k..]
    ensures var r, g := Step(s, k, flags, payload), if Takes(s, flags) then f + [Frame(flags, payload)] else f;
            |g| == r.block * k + |r.open| && r.open == g[r.block * k..]
  {
    assert s.block * k + k == (s.block + 1) * k;
    var frame := Frame(flags, payload);
    hide Frame;
    assert (f + [frame])[s.block * k..] == s.open + [frame];
  }

  /** The block being filled holds the frames after the full blocks. */
  lemma {:induction false} SentFrames(k: nat, inputs: seq<Submission>)
    requires k >= 1 && Fitting(inputs)
    ensures var s, f := Sent(k, inputs), Frames(k, inputs);
            |f| == s.block * k + |s.open| && s.open == f[s.block * k..]
  {
    if inputs != [] {
      var before, last := inputs[..|inputs| - 1], inputs[|inputs| - 1];
      SentFrames(k, before);
      var s, f := Sent(k, before), Frames(k, before);
      StepFrames(s, f, k, last.flags, last.payload);
      hide Frame, Step, Takes, SenderOk;
    }
  }

  // ---------- what is on the air ----------

  /** The packet belongs to the session and node and carries the fragment its nonce names. */
  ghost predicate PacketTrue(frames: seq<seq<Byte>>, k: nat, n: nat, session: nat, node: Byte, p: Packet)
    requires CodeParameters(k, n) && Framed(frames)
  {
    && p.session == session && NonceSourceNode(p.nonce) == node
    && FragOk(frames, k, n, NonceBlock(p.nonce), NonceFragment(p.nonce), p.content)
  }

  lemma HeaderTrue(frames: seq<seq<Byte>>, k: nat, n: nat, session: nat, node: Byte, block: nat, f: nat, content: seq<Byte>)
    requires CodeParameters(k, n) && Framed(frames) && block < MAX_BLOCK && f < n && FragOk(frames, k, n, block, f, content)
    ensures PacketTrue(frames, k, n, session, node, Header(session, node, block, f, content))
  {
    hide FragOk, MakeDataNonce, NonceBlock, NonceFragment, NonceSourceNode;
    NonceRoundTrip(node, block, f);
  }

  /** More payloads do not change what the packets so far carry. */
  lemma FragStays(frames: seq<seq<Byte>>, more: seq<seq<Byte>>, k: nat, n: nat, block: nat, f: nat, content: seq<Byte>)
    requires CodeParameters(k, n) && Framed(frames) && Framed(frames + more) && FragOk(frames, k, n, block, f, content)
    ensures FragOk(frames + more, k, n, block, f, content)
  {
    if f >= k {
      BlockFits(frames, k, block);
      assert BlockFrames(frames + more, k, block) == BlockFrames(frames, k, block);
    }
  }

  ghost predicate AirTrue(frames: seq<seq<Byte>>, k: nat, n: nat, session: nat, node: Byte, air: seq<Packet>)
    requires CodeParameters(k, n) && Framed(frames)
  {
    forall i :: 0 <= i < |air| ==> PacketTrue(frames, k, n, session, node, air[i])
  }

  lemma ParityFragment(frames: seq<seq<Byte>>, k: nat, n: nat, block: nat, f: nat)
    requires CodeParameters(k, n) && Framed(frames) && (block + 1) * k <= |frames| && k <= f < n
    ensures BlockFrames(frames, k, block) != [] && Longest(BlockFrames(frames, k, block)) <= MAX_FEC_PAYLOAD
    ensures FragOk(frames, k, n, block, f, Fragment(BlockFrames(frames, k, block), f))
  {
    BlockFits(frames, k, block);
    hide Fragment, BlockFrames, Longest;
  }

  lemma {:induction false} ParityTrue(frames: seq<seq<Byte>>, k: nat, n: nat, session: nat, node: Byte, block: nat, f: nat)
    requires CodeParameters(k, n) && Framed(frames) && block < MAX_BLOCK && (block + 1) * k <= |frames| && f >= k
    ensures Longest(BlockFrames(frames, k, block)) <= MAX_FEC_PAYLOAD
    ensures AirTrue(frames, k, n, session, node, Parity(session, node, block, BlockFrames(frames, k, block), n, f))
    decreases n - f
  {
    BlockFits(frames, k, block);
    hide *;
    var open := BlockFrames(frames, k, block);
    ParityNext(session, node, block, open, n, f);
    if f < n {
      ParityTrue(frames, k, n, session, node, block, f + 1);
      ParityFragment(frames, k, n, block, f);
      HeaderTrue(frames, k, n, session, node, block, f, Fragment(open, f));
      AirCons(frames, k, n, session, node, Header(session, node, block, f, Fragment(open, f)), Parity(session, node, block, open, n, f + 1));
    } else {
      AirNone(frames, k, n, session, node);
    }
  }

  lemma ParityNext(session: nat, node: Byte, block: nat, open: seq<seq<Byte>>, n: nat, f: nat)
    requires open != [] && Longest(open) <= MAX_FEC_PAYLOAD && n <= 255
    ensures Parity(session, node, block, open, n, f)
            == if f < n then [Header(session, node, block, f, Fragment(open, f))] + Parity(session, node, block, open, n, f + 1) else []
  {
    hide Fragment, Longest;
  }

  lemma AirCons(frames: seq<seq<Byte>>, k: nat, n: nat, session: nat, node: Byte, p: Packet, rest: seq<Packet>)
    requires CodeParameters(k, n) && Framed(frames) && PacketTrue(frames, k, n, session, node, p) && AirTrue(frames, k, n, session, node, rest)
    ensures AirTrue(frames, k, n, session, node, [p] + rest)
  {
    hide PacketTrue;
  }

  lemma AirNone(frames: seq<seq<Byte>>, k: nat, n: nat, session: nat, node: Byte)
    requires CodeParameters(k, n) && Framed(frames)
    ensures AirTrue(frames, k, n, session, node, [])
  {}

  lemma AirJoin(frames: seq<seq<Byte>>, k: nat, n: nat, session: nat, node: Byte, a: seq<Packet>, b: seq<Packet>)
    requires CodeParameters(k, n) && Framed(frames)
    requires AirTrue(frames, k, n, session, node, a) && AirTrue(frames, k, n, session, node, b)
    ensures AirTrue(frames, k, n, session, node, a + b)
  {}

  lemma AirStays(frames: seq<seq<Byte>>, more: seq<seq<Byte>>, k: nat, n: nat, session: nat, node: Byte, air: seq<Packet>)
    requires CodeParameters(k, n) && Framed(frames) && Framed(frames + more) && AirTrue(frames, k, n, session, node, air)
    ensures AirTrue(frames + more, k, n, session, node, air)
  {
    hide FragOk, Framed;
    forall i | 0 <= i < |air|
      ensures PacketTrue(frames + more, k, n, session, node, air[i])
    {
      FragStays(frames, more, k, n, NonceBlock(air[i].nonce), NonceFragment(air[i].nonce), air[i].content);
    }
  }

  /** What one payload puts on the air is true of the frames with it. */
  lemma EmittedTrue(s: Sender, frames: seq<seq<Byte>>, k: nat, n: nat, session: nat, node: Byte, flags: Byte, payload: seq<Byte>)
    requires CodeParameters(k, n) && SenderOk(s, k) && |payload| <= MAX_PAYLOAD_SIZE && Framed(frames) && s.block < MAX_BLOCK
    requires |frames| == s.block * k + |s.open| && s.open == frames[s.block * k..] && Takes(s, flags)
    ensures Framed(frames + [Frame(flags, payload)])
    ensures AirTrue(frames + [Frame(flags, payload)], k, n, session, node, Emitted(s, k, n, session, node, flags, payload))
  {
    var frame := Frame(flags, payload);
    var all, open := frames + [frame], s.open + [frame];
    FirstTrue(s, frames, k, n, session, node, frame);
    var first := Header(session, node, s.block, |s.open|, frame);
    hide Frame, Framed, Header, Longest, Fragment, AirTrue, Parity;
    if |open| == k {
      FullBlock(s, frames, k, frame);
      ParityTrue(all, k, n, session, node, s.block, k);
      AirJoin(all, k, n, session, node, [first], Parity(session, node, s.block, open, n, k));
    } else {
      assert [first] + [] == [first];
    }
  }

  /** The payload's own packet. */
  lemma FirstTrue(s: Sender, frames: seq<seq<Byte>>, k: nat, n: nat, session: nat, node: Byte, frame: seq<Byte>)
    requires CodeParameters(k, n) && |s.open| < k && Framed(frames) && s.block < MAX_BLOCK && Framed([frame])
    requires |frames| == s.block * k + |s.open|
    ensures Framed(frames + [frame])
    ensures AirTrue(frames + [frame], k, n, session, node, [Header(session, node, s.block, |s.open|, frame)])
  {
    var all, f := frames + [frame], |s.open|;
    assert [frame][0] == frame && all[s.block * k + f] == frame;
    assert FragOk(all, k, n, s.block, f, frame);
    hide FragOk, Framed, Header;
    HeaderTrue(all, k, n, session, node, s.block, f, frame);
  }

  lemma FullBlock(s: Sender, frames: seq<seq<Byte>>, k: nat, frame: seq<Byte>)
    requires |s.open| + 1 == k && |frames| == s.block * k + |s.open| && s.open == frames[s.block * k..]
    ensures (s.block + 1) * k == |frames + [frame]| && BlockFrames(frames + [frame], k, s.block) == s.open + [frame]
  {
    assert s.block * k + k == (s.block + 1) * k;
    var all := frames + [frame];
    assert all[s.block * k..] == s.open + [frame];
    assert all[s.block * k..s.block * k + k] == all[s.block * k..];
  }

  /** Every packet on the air is true of the frames. */
  lemma {:induction false} AirIsTrue(k: nat, n: nat, session: nat, node: Byte, inputs: seq<Submission>)
    requires CodeParameters(k, n) && Fitting(inputs) && Sent(k, inputs).block < MAX_BLOCK
    ensures AirTrue(Frames(k, inputs), k, n, session, node, Air(k, n, session, node, inputs))
  {
    if inputs != [] {
      var before, last := inputs[..|inputs| - 1], inputs[|inputs| - 1];
      var s, f := Sent(k, before), Frames(k, before);
      AirIsTrue(k, n, session, node, before);
      SentFrames(k, before);
      hide AirTrue, SenderOk, Framed, Frame;
      var air := Air(k, n, session, node, before);
      if Takes(s, last.flags) {
        EmittedTrue(s, f, k, n, session, node, last.flags, last.payload);
        AirStays(f, [Frame(last.flags, last.payload)], k, n, session, node, air);
        AirJoin(f + [Frame(last.flags, last.payload)], k, n, session, node, air, Emitted(s, k, n, session, node, last.flags, last.payload));
      } else {
        assert air + [] == air;
      }
    }
  }

  // ---------- all of it is on the air ----------

  /** The nonces of the first m fragments of a block. */
  function BlockNonces(node: Byte, block: nat, m: nat): (r: seq<nat>)
    requires m <= 256
    ensures |r| == m
  {
    seq(m, f requires 0 <= f < m => MakeDataNonce(node, block, f))
  }

  /** The nonces of all fragments of the first blocks, block by block. */
  function AllNonces(node: Byte, n: nat, blocks: nat): seq<nat>
    requires n <= 255
  {
    if blocks == 0 then [] else AllNonces(node, n, blocks - 1) + BlockNonces(node, blocks - 1, n)
  }

  function NoncesOf(air: seq<Packet>): (r: seq<nat>)
    ensures |r| == |air|
  {
    seq(|air|, i requires 0 <= i < |air| => air[i].nonce)
  }

  lemma NoncesJoin(a: seq<Packet>, b: seq<Packet>)
    ensures NoncesOf(a + b) == NoncesOf(a) + NoncesOf(b)
  {}

  lemma {:induction false} ParityNonces(session: nat, node: Byte, block: nat, open: seq<seq<Byte>>, n: nat, f: nat)
    requires open != [] && Longest(open) <= MAX_FEC_PAYLOAD && f <= n <= 255
    ensures BlockNonces(node, block, f) + NoncesOf(Parity(session, node, block, open, n, f)) == BlockNonces(node, block, n)
    decreases n - f
  {
    hide *;
    ParityNext(session, node, block, open, n, f);
    if f < n {
      ParityNonces(session, node, block, open, n, f + 1);
      var first, rest := Header(session, node, block, f, Fragment(open, f)), Parity(session, node, block, open, n, f + 1);
      NoncesOne(first);
      HeaderNonce(session, node, block, f, Fragment(open, f));
      NoncesJoin([first], rest);
      NextNonce(node, block, f);
      Grouped(BlockNonces(node, block, f), [first.nonce], NoncesOf(rest));
    }
  }

  lemma NoncesOne(p: Packet)
    ensures NoncesOf([p]) == [p.nonce]
  {}

  lemma NextNonce(node: Byte, block: nat, f: nat)
    requires f < 256
    ensures BlockNonces(node, block, f + 1) == BlockNonces(node, block, f) + [MakeDataNonce(node, block, f)]
  {
    hide MakeDataNonce;
  }

  lemma Grouped<T>(a: seq<T>, b: seq<T>, c: seq<T>)
    ensures a + (b + c) == a + b + c
  {}

  lemma HeaderNonce(session: nat, node: Byte, block: nat, f: nat, content: seq<Byte>)
    requires f < 256
    ensures Header(session, node, block, f, content).nonce == MakeDataNonce(node, block, f)
  {}

  /** What one payload adds. */
  lemma EmittedNonces(s: Sender, k: nat, n: nat, session: nat, node: Byte, flags: Byte, payload: seq<Byte>)
    requires CodeParameters(k, n) && SenderOk(s, k) && |payload| <= MAX_PAYLOAD_SIZE && Takes(s, flags)
    ensures BlockNonces(node, s.block, |s.open|) + NoncesOf(Emitted(s, k, n, session, node, flags, payload))
            == BlockNonces(node, s.block, if |s.open| + 1 == k then n else |s.open| + 1)
  {
    var f, open := |s.open|, s.open + [Frame(flags, payload)];
    var first := Header(session, node, s.block, f, open[f]);
    LongestFits(open);
    EmittedParts(s, k, n, session, node, flags, payload);
    HeaderNonce(session, node, s.block, f, open[f]);
    hide *;
    NoncesOne(first);
    NextNonce(node, s.block, f);
    if |open| == k {
      ParityNonces(session, node, s.block, open, n, k);
      var rest := Parity(session, node, s.block, open, n, k);
      NoncesJoin([first], rest);
      Grouped(BlockNonces(node, s.block, f), [first.nonce], NoncesOf(rest));
    }
  }

  lemma EmittedParts(s: Sender, k: nat, n: nat, session: nat, node: Byte, flags: Byte, payload: seq<Byte>)
    requires CodeParameters(k, n) && SenderOk(s, k) && |payload| <= MAX_PAYLOAD_SIZE && Takes(s, flags)
    ensures var open := s.open + [Frame(flags, payload)];
            var first := Header(session, node, s.block, |s.open|, open[|s.open|]);
            && Longest(open) <= MAX_FEC_PAYLOAD
            && Emitted(s, k, n, session, node, flags, payload)
               == if |open| == k then [first] + Parity(session, node, s.block, open, n, k) else [first]
  {
    var open := s.open + [Frame(flags, payload)];
    LongestFits(open);
    hide Frame, Framed, Longest, Parity, Header;
  }

  /** All n fragments of every closed block, and those of the open one so far, have been put on the air,
      each once and in order. */
  lemma {:induction false} AirIsComplete(k: nat, n: nat, session: nat, node: Byte, inputs: seq<Submission>)
    requires CodeParameters(k, n) && Fitting(inputs)
    ensures var s := Sent(k, inputs);
            NoncesOf(Air(k, n, session, node, inputs)) == AllNonces(node, n, s.block) + BlockNonces(node, s.block, |s.open|)
  {
    if inputs == [] {
      assert NoncesOf([]) == [];
    } else {
      var before, last := inputs[..|inputs| - 1], inputs[|inputs| - 1];
      AirIsComplete(k, n, session, node, before);
      var s := Sent(k, before);
      var more := Emitted(s, k, n, session, node, last.flags, last.payload);
      AirStep(k, n, session, node, inputs);
      NoncesJoin(Air(k, n, session, node, before), more);
      hide *;
      if Takes(s, last.flags) {
        EmittedNonces(s, k, n, session, node, last.flags, last.payload);
        Grouped(AllNonces(node, n, s.block), BlockNonces(node, s.block, |s.open|), NoncesOf(more));
        NextBlock(node, n, s.block);
      }
    }
  }

  lemma NextBlock(node: Byte, n: nat, block: nat)
    requires n <= 255
    ensures AllNonces(node, n, block + 1) + BlockNonces(node, block + 1, 0) == AllNonces(node, n, block) + BlockNonces(node, block, n)
  {
    hide MakeDataNonce;
    assert BlockNonces(node, block + 1, 0) == [];
  }

  /** The last submission. */
  lemma AirStep(k: nat, n: nat, session: nat, node: Byte, inputs: seq<Submission>)
    requires CodeParameters(k, n) && Fitting(inputs) && inputs != []
    ensures var before, last := inputs[..|inputs| - 1], inputs[|inputs| - 1];
            var s, r := Sent(k, before), Sent(k, inputs);
            var air, more := Air(k, n, session, node, before), Emitted(s, k, n, session, node, last.flags, last.payload);
            if !Takes(s, last.flags) then r == s && Air(k, n, session, node, inputs) == air
            else Air(k, n, session, node, inputs) == air + more
                 && if |s.open| + 1 == k then r.block == s.block + 1 && r.open == [] else r.block == s.block && |r.open| == |s.open| + 1
  {
    hide Frame, Parity, Header;
    var air := Air(k, n, session, node, inputs[..|inputs| - 1]);
    assert air + [] == air;
  }

  /** A filler closes a block that is open and does nothing otherwise; everything else is taken. */
  lemma FillersOnlyClose(k: nat, n: nat, session: nat, node: Byte, inputs: seq<Submission>, x: Submission)
    requires CodeParameters(k, n) && Fitting(inputs) && |x.payload| <= MAX_PAYLOAD_SIZE
    ensures var s, more := Sent(k, inputs), inputs + [x];
            if FecOnly(x.flags) && s.open == []
            then Sent(k, more) == s && Air(k, n, session, node, more) == Air(k, n, session, node, inputs)
            else Frames(k, more) == Frames(k, inputs) + [Frame(x.flags, x.payload)]
  {
    var more := inputs + [x];
    assert more[..|more| - 1] == inputs;
    AirStep(k, n, session, node, more);
    hide Frame, Air, Parity;
  }

  // ---------- what is delivered ----------

  /** be16toh */
  function BigEndian16(high: nat, low: nat): nat { high * 256 + low }

  /** The decision of the receiver's `send_packet` on a buffer: the payload to deliver, if any. */
  function Output(buffer: seq<Byte>): (out: seq<seq<Byte>>)
    ensures |out| <= 1
  {
    if |buffer| < PACKET_HEADER then []
    else
      var size := BigEndian16(buffer[1], buffer[2]);
      if size > MAX_PAYLOAD_SIZE || FecOnly(buffer[0]) || PACKET_HEADER + size > |buffer| then []
      else [buffer[PACKET_HEADER..PACKET_HEADER + size]]
  }

  /** Everything delivered. */
  function Delivered(sends: seq<Send>): seq<seq<Byte>> {
    if sends == [] then [] else Delivered(sends[..|sends| - 1]) + Output(sends[|sends| - 1].buffer)
  }

  /** The payloads that the sender was given for delivery; fillers are not. */
  function Submitted(inputs: seq<Submission>): seq<seq<Byte>> {
    if inputs == [] then []
    else
      var last := inputs[|inputs| - 1];
      Submitted(inputs[..|inputs| - 1]) + if FecOnly(last.flags) then [] else [last.payload]
  }

  /** The payloads in some frames. */
  function Carried(frames: seq<seq<Byte>>): seq<seq<Byte>> {
    if frames == [] then [] else Carried(frames[..|frames| - 1]) + Output(frames[|frames| - 1])
  }

  /** A frame whose header tells its length. */
  predicate SelfDescribing(frame: seq<Byte>) {
    PACKET_HEADER <= |frame| <= MAX_FEC_PAYLOAD && BigEndian16(frame[1], frame[2]) == |frame| - PACKET_HEADER
  }

  lemma FrameOutput(flags: Byte, payload: seq<Byte>)
    requires |payload| <= MAX_PAYLOAD_SIZE
    ensures SelfDescribing(Frame(flags, payload))
    ensures Output(Frame(flags, payload)) == if FecOnly(flags) then [] else [payload]
  {
    var f := Frame(flags, payload);
    assert f[PACKET_HEADER..PACKET_HEADER + |payload|] == payload;
  }

  /** Whatever follows the frame in its buffer does not matter. */
  lemma ShownOutput(buffer: seq<Byte>, frame: seq<Byte>)
    requires Shows(buffer, frame) && SelfDescribing(frame)
    ensures Output(buffer) == Output(frame)
  {
    assert forall i :: 0 <= i < |frame| ==> buffer[..|frame|][i] == frame[i];
    var size := BigEndian16(frame[1], frame[2]);
    assert buffer[0] == frame[0] && BigEndian16(buffer[1], buffer[2]) == size;
    assert buffer[PACKET_HEADER..PACKET_HEADER + size] == frame[PACKET_HEADER..PACKET_HEADER + size];
  }

  lemma {:induction false} FramesDescribe(k: nat, inputs: seq<Submission>)
    requires k >= 1 && Fitting(inputs)
    ensures forall i :: 0 <= i < |Frames(k, inputs)| ==> SelfDescribing(Frames(k, inputs)[i])
    ensures Carried(Frames(k, inputs)) == Submitted(inputs)
  {
    if inputs != [] {
      var before, last := inputs[..|inputs| - 1], inputs[|inputs| - 1];
      FramesDescribe(k, before);
      FrameOutput(last.flags, last.payload);
      var f, frame := Frames(k, before), Frame(last.flags, last.payload);
      assert (f + [frame])[..|f|] == f;
      hide Frame, SelfDescribing, Output;
    }
  }

  // ---------- the receiver ----------

  function AsArrival(p: Packet): Arrival {
    Arrival(p.session, NonceBlock(p.nonce), NonceFragment(p.nonce), p.content)
  }

  predicate From(node: Byte, p: Packet) { node != 0 && NonceSourceNode(p.nonce) == node }

  /** The packets of one node, as the receiver's state for that node gets them; node 0 is rejected. */
  function Routed(node: Byte, received: seq<Packet>): (h: seq<Arrival>)
    ensures forall a :: a in h ==> exists p :: p in received && From(node, p) && a == AsArrival(p)
  {
    if received == [] then []
    else
      var p := received[|received| - 1];
      Routed(node, received[..|received| - 1]) + if From(node, p) then [AsArrival(p)] else []
  }

  /** Nothing but what the sender put on the air: any number of times, in any order, or not at all. */
  ghost predicate Channel(air: seq<Packet>, received: seq<Packet>) {
    forall i :: 0 <= i < |received| ==> received[i] in air
  }

  /** All arrivals carry the sender's fragments. */
  ghost predicate HistoryTrue(frames: seq<seq<Byte>>, k: nat, n: nat, session: nat, h: seq<Arrival>)
    requires CodeParameters(k, n) && Framed(frames)
  {
    forall i :: 0 <= i < |h| ==> h[i].session == session && FragOk(frames, k, n, h[i].block, h[i].frag, h[i].content)
  }

  lemma RoutedTrue(frames: seq<seq<Byte>>, k: nat, n: nat, session: nat, node: Byte, air: seq<Packet>, received: seq<Packet>)
    requires CodeParameters(k, n) && Framed(frames) && AirTrue(frames, k, n, session, node, air) && Channel(air, received)
    ensures HistoryTrue(frames, k, n, session, Routed(node, received))
  {
    hide FragOk, Framed;
    var h := Routed(node, received);
    forall i | 0 <= i < |h|
      ensures h[i].session == session && FragOk(frames, k, n, h[i].block, h[i].frag, h[i].content)
    {
      assert h[i] in h;
      var p :| p in received && From(node, p) && h[i] == AsArrival(p);
      assert p in air;
    }
  }

  /** Over any such history everything handed over is the sender's, in its one session. */
  lemma {:induction false} RunTrue(frames: seq<seq<Byte>>, k: nat, n: nat, session: nat, h: seq<Arrival>)
    requires CodeParameters(k, n) && Framed(frames) && HistoryTrue(frames, k, n, session, h)
    ensures var s := Run(k, n, h);
            && SourceTrue(frames, k, n, s) && s.retired == {} && (s.hasSession ==> s.session == session)
            && forall i :: 0 <= i < |s.sends| ==> s.sends[i].session == session
    decreases |h|
  {
    hide FragOk, Framed, Receive;
    if h == [] {
      assert Run(k, n, h) == FRESH_SOURCE;
    } else {
      var g, a := h[..|h| - 1], h[|h| - 1];
      RunTrue(frames, k, n, session, g);
      var s := Run(k, n, g);
      assert Run(k, n, h) == Receive(s, k, n, a.session, a.block, a.frag, a.content);
      assert FragOk(frames, k, n, a.block, a.frag, a.content);
      hide SourceTrue, HistoryTrue;
      ReceiveTrue(frames, k, n, s, a.session, a.block, a.frag, a.content);
      SameSession(s, k, n, session, a);
    }
  }

  lemma SameSession(s: Source, k: nat, n: nat, session: nat, a: Arrival)
    requires LogOk(s, k, n) && s.retired == {} && (s.hasSession ==> s.session == session) && a.session == session
    requires forall i :: 0 <= i < |s.sends| ==> s.sends[i].session == session
    ensures var r := Receive(s, k, n, a.session, a.block, a.frag, a.content);
            && r.retired == {} && (r.hasSession ==> r.session == session)
            && forall i :: 0 <= i < |r.sends| ==> r.sends[i].session == session
  {
    ReceiveStep(s, k, n, a.session, a.block, a.frag, a.content);
    ReceiveKeepsLog(s, k, n, a.session, a.block, a.frag, a.content);
    hide Receive, Extends;
    var r := Receive(s, k, n, a.session, a.block, a.frag, a.content);
    assert LogOk(r, k, n);
  }

  // ---------- safety ----------

  /** a is b with some elements left out. */
  ghost predicate Subsequence<T>(a: seq<T>, b: seq<T>) {
    a == [] || (b != [] && (Subsequence(a, b[..|b| - 1])
                            || (a[|a| - 1] == b[|b| - 1] && Subsequence(a[..|a| - 1], b[..|b| - 1]))))
  }

  /** Appending at most one element to both, or to the longer one only. */
  lemma SubsequenceMore<T>(a: seq<T>, b: seq<T>, more: seq<T>)
    requires Subsequence(a, b) && |more| <= 1
    ensures Subsequence(a + more, b + more) && Subsequence(a, b + more)
  {
    if more == [] {
      assert a + more == a && b + more == b;
    } else {
      assert (a + more)[..|a|] == a && (b + more)[..|b|] == b;
    }
  }

  /** Frames handed over in order of their numbers. */
  ghost predicate Increasing(sends: seq<Send>, k: nat) {
    forall i, j :: 0 <= i < j < |sends| ==> FrameIndex(sends[i], k) < FrameIndex(sends[j], k)
  }

  /** True frames in increasing order deliver a subsequence of what the frames carry. */
  lemma {:induction false} IncreasingDelivers(frames: seq<seq<Byte>>, k: nat, sends: seq<Send>, m: nat)
    requires m <= |frames| && AllTrue(frames, k, sends) && Increasing(sends, k)
    requires forall i :: 0 <= i < |frames| ==> SelfDescribing(frames[i])
    requires sends != [] ==> FrameIndex(sends[|sends| - 1], k) < m
    ensures Subsequence(Delivered(sends), Carried(frames[..m]))
    decreases m
  {
    if sends == [] {
      NothingDelivered(frames[..m]);
    } else {
      var last, init := sends[|sends| - 1], sends[..|sends| - 1];
      CarriedNext(frames, m);
      IncreasingInit(sends, k);
      LastOut(frames, k, sends, m);
      hide *;
      if FrameIndex(last, k) == m - 1 {
        IncreasingDelivers(frames, k, init, m - 1);
        SubsequenceMore(Delivered(init), Carried(frames[..m - 1]), Output(frames[m - 1]));
      } else {
        IncreasingDelivers(frames, k, sends, m - 1);
        SubsequenceMore(Delivered(sends), Carried(frames[..m - 1]), Output(frames[m - 1]));
      }
    }
  }

  lemma NothingDelivered(b: seq<seq<Byte>>)
    ensures Subsequence(Delivered([]), Carried(b))
  {}

  lemma CarriedNext(frames: seq<seq<Byte>>, m: nat)
    requires 0 < m <= |frames|
    ensures Carried(frames[..m]) == Carried(frames[..m - 1]) + Output(frames[m - 1])
  {
    assert frames[..m][..m - 1] == frames[..m - 1];
  }

  /** Without the last entry the rest is still increasing, and ends before it. */
  lemma IncreasingInit(sends: seq<Send>, k: nat)
    requires sends != [] && Increasing(sends, k)
    ensures var init := sends[..|sends| - 1];
            Increasing(init, k) && (init != [] ==> FrameIndex(init[|init| - 1], k) < FrameIndex(sends[|sends| - 1], k))
  {
    hide FrameIndex;
  }

  /** The last entry delivers what its frame carries. */
  lemma LastOut(frames: seq<seq<Byte>>, k: nat, sends: seq<Send>, m: nat)
    requires sends != [] && 0 < m <= |frames| && AllTrue(frames, k, sends) && SelfDescribing(frames[m - 1])
    ensures AllTrue(frames, k, sends[..|sends| - 1])
    ensures FrameIndex(sends[|sends| - 1], k) == m - 1 ==> Delivered(sends) == Delivered(sends[..|sends| - 1]) + Output(frames[m - 1])
  {
    var last := sends[|sends| - 1];
    assert SendTrue(frames, k, last);
    if FrameIndex(last, k) == m - 1 { ShownOutput(last.buffer, frames[m - 1]); }
    hide Output, SelfDescribing, Shows;
  }

  /** The order of blocks and fragments is the order of frame numbers. */
  lemma RunIncreasing(k: nat, n: nat, session: nat, h: seq<Arrival>)
    requires CodeParameters(k, n) && forall i :: 0 <= i < |Run(k, n, h).sends| ==> Run(k, n, h).sends[i].session == session
    ensures Increasing(Run(k, n, h).sends, k)
  {
    hide Run, FrameIndex;
    var sends := Run(k, n, h).sends;
    forall i, j | 0 <= i < j < |sends|
      ensures FrameIndex(sends[i], k) < FrameIndex(sends[j], k)
    {
      RunOrdered(k, n, h, i, j);
      assert LogOk(Run(k, n, h), k, n);
      IndexOrder(sends[i], sends[j], k);
    }
  }

  lemma IndexOrder(a: Send, b: Send, k: nat)
    requires a.frag < k && b.frag < k && (a.block < b.block || (a.block == b.block && a.frag < b.frag))
    ensures FrameIndex(a, k) < FrameIndex(b, k)
  {
    if a.block < b.block { assert (a.block + 1) * k <= b.block * k; }
  }

  /** Whatever the channel loses, repeats or reorders, the delivered payloads are a subsequence of
      the submitted ones, bytes intact. */
  lemma DeliveredIsSubsequence(k: nat, n: nat, session: nat, node: Byte, inputs: seq<Submission>, received: seq<Packet>)
    requires CodeParameters(k, n) && Fitting(inputs) && Sent(k, inputs).block < MAX_BLOCK
    requires Channel(Air(k, n, session, node, inputs), received)
    ensures Subsequence(Delivered(Run(k, n, Routed(node, received)).sends), Submitted(inputs))
  {
    var frames, h := Frames(k, inputs), Routed(node, received);
    AirIsTrue(k, n, session, node, inputs);
    RoutedTrue(frames, k, n, session, node, Air(k, n, session, node, inputs), received);
    RunTrue(frames, k, n, session, h);
    RunIncreasing(k, n, session, h);
    FramesDescribe(k, inputs);
    hide Run, Framed, Channel, Frames, Routed;
    var sends := Run(k, n, h).sends;
    if sends != [] { assert SendTrue(frames, k, sends[|sends| - 1]); }
    IncreasingDelivers(frames, k, sends, |frames|);
    assert frames[..|frames|] == frames;
  }

  // ---------- completeness ----------

  /** Of every closed block k distinct fragments arrive (at most n - k are lost), one block after the other. */
  ghost predicate Lossy(k: nat, n: nat, blocks: nat, h: seq<Arrival>) {
    InOrder(h) && forall b :: 0 <= b < blocks ==> |Arrived(h, b)| >= k
  }

  /** The log of frames that are handed over one by one delivers what the frames carry. */
  lemma {:induction false} GaplessDelivers(frames: seq<seq<Byte>>, k: nat, sends: seq<Send>, m: nat)
    requires m <= |sends| && AllTrue(frames, k, sends) && Gapless(sends, k)
    requires forall i :: 0 <= i < |frames| ==> SelfDescribing(frames[i])
    ensures m <= |frames| && Delivered(sends[..m]) == Carried(frames[..m])
  {
    if m > 0 {
      GaplessDelivers(frames, k, sends, m - 1);
      var last := sends[m - 1];
      assert FrameIndex(last, k) == m - 1 && SendTrue(frames, k, last);
      ShownOutput(last.buffer, frames[m - 1]);
      assert sends[..m][..m - 1] == sends[..m - 1] && frames[..m][..m - 1] == frames[..m - 1];
    }
  }

  /** The last arrival belongs to the last closed block or to the one being filled. */
  lemma LastBlock(frames: seq<seq<Byte>>, k: nat, n: nat, session: nat, blocks: nat, open: nat, h: seq<Arrival>)
    requires CodeParameters(k, n) && Framed(frames) && HistoryTrue(frames, k, n, session, h)
    requires |frames| == blocks * k + open && open < k && blocks > 0 && Lossy(k, n, blocks, h)
    ensures h != [] && (h[|h| - 1].block == blocks - 1 || h[|h| - 1].block == blocks)
  {
    NoneArrived(h, blocks - 1);
    hide Arrived, FragOk, Framed;
    assert |Arrived(h, blocks - 1)| >= k;
    var i :| 0 <= i < |h| && h[i].block == blocks - 1;
    var last := h[|h| - 1];
    assert blocks - 1 <= last.block by { if i < |h| - 1 { assert h[i].block <= last.block; } }
    InRange(frames, k, n, last, blocks, open);
  }

  lemma NoBlockBeyond(block: nat, blocks: nat, k: nat)
    ensures block > blocks ==> block * k >= blocks * k + k
  {
    if block > blocks {
      var d: nat := block - blocks - 1;
      assert block * k == (blocks + 1 + d) * k == (blocks + 1) * k + d * k;
    }
  }

  lemma InRange(frames: seq<seq<Byte>>, k: nat, n: nat, a: Arrival, blocks: nat, open: nat)
    requires CodeParameters(k, n) && Framed(frames) && FragOk(frames, k, n, a.block, a.frag, a.content)
    requires |frames| == blocks * k + open && open < k
    ensures a.block <= blocks && a.frag < n
  {
    assert a.block * k <= |frames|;
    NoBlockBeyond(a.block, blocks, k);
  }

  /** Every frame of every closed block has been handed over, one by one. */
  lemma ClosedBlocksHanded(frames: seq<seq<Byte>>, k: nat, n: nat, session: nat, blocks: nat, open: nat, h: seq<Arrival>)
    requires CodeParameters(k, n) && Framed(frames) && HistoryTrue(frames, k, n, session, h) && session != 0
    requires |frames| == blocks * k + open && open < k && Lossy(k, n, blocks, h)
    ensures |Run(k, n, h).sends| >= blocks * k && Gapless(Run(k, n, h).sends, k)
  {
    hide Run, FragOk, Framed, Arrived, Gapless;
    if h != [] {
      var c := h[|h| - 1].block;
      forall i | 0 <= i < |h|
        ensures h[i].frag < n && h[i].block <= blocks
      {
        InRange(frames, k, n, h[i], blocks, open);
      }
      RunProgress(k, n, session, h);
    } else {
      EmptyRun(k, n);
    }
    if blocks > 0 {
      LastBlock(frames, k, n, session, blocks, open, h);
      assert |Arrived(h, blocks - 1)| >= k;
      assert (blocks - 1 + 1) * k == blocks * k;
    }
  }

  /** The first `count` entries of the log deliver what the first `count` frames carry. */
  ghost predicate FirstDelivered(sends: seq<Send>, frames: seq<seq<Byte>>, count: nat) {
    count <= |sends| && count <= |frames| && Delivered(sends[..count]) == Carried(frames[..count])
  }

  lemma GaplessFirst(frames: seq<seq<Byte>>, k: nat, sends: seq<Send>, count: nat)
    requires count <= |sends| && AllTrue(frames, k, sends) && Gapless(sends, k)
    requires forall i :: 0 <= i < |frames| ==> SelfDescribing(frames[i])
    ensures |sends| <= |frames| && FirstDelivered(sends, frames, count)
    ensures |sends| == |frames| ==> Delivered(sends) == Carried(frames)
  {
    GaplessDelivers(frames, k, sends, count);
    GaplessDelivers(frames, k, sends, |sends|);
    assert sends[..|sends|] == sends && frames[..|frames|] == frames;
  }

  /** The number of frames in closed blocks. */
  ghost function ClosedFrames(k: nat, inputs: seq<Submission>): nat
    requires k >= 1 && Fitting(inputs)
  {
    Sent(k, inputs).block * k
  }

  /** If no block loses more than n - k fragments and blocks stay in order, the payloads of all
      closed blocks are delivered, completely and in order, and no filler ever is; once the sender
      has closed its last block, that is everything it was given. */
  lemma ClosedBlocksDelivered(k: nat, n: nat, session: nat, node: Byte, inputs: seq<Submission>, received: seq<Packet>)
    requires CodeParameters(k, n) && Fitting(inputs) && Sent(k, inputs).block < MAX_BLOCK && session != 0
    requires Channel(Air(k, n, session, node, inputs), received)
    requires Lossy(k, n, Sent(k, inputs).block, Routed(node, received))
    ensures FirstDelivered(Run(k, n, Routed(node, received)).sends, Frames(k, inputs), ClosedFrames(k, inputs))
    ensures Sent(k, inputs).open == [] ==> Delivered(Run(k, n, Routed(node, received)).sends) == Submitted(inputs)
  {
    var frames, h, s := Frames(k, inputs), Routed(node, received), Sent(k, inputs);
    SentFrames(k, inputs);
    AirIsTrue(k, n, session, node, inputs);
    RoutedTrue(frames, k, n, session, node, Air(k, n, session, node, inputs), received);
    RunTrue(frames, k, n, session, h);
    FramesDescribe(k, inputs);
    assert |s.open| < k && |frames| == s.block * k + |s.open| && ClosedFrames(k, inputs) == s.block * k;
    hide *;
    ClosedBlocksHanded(frames, k, n, session, s.block, |s.open|, h);
    assert AllTrue(frames, k, Run(k, n, h).sends) by { TrueLog(frames, k, n, Run(k, n, h)); }
    GaplessFirst(frames, k, Run(k, n, h).sends, ClosedFrames(k, inputs));
  }

  lemma TrueLog(frames: seq<seq<Byte>>, k: nat, n: nat, s: Source)
    requires CodeParameters(k, n) && Framed(frames) && SourceTrue(frames, k, n, s)
    ensures AllTrue(frames, k, s.sends)
  {}

  lemma EmptyRun(k: nat, n: nat)
    requires CodeParameters(k, n)
    ensures Run(k, n, []).sends == [] && Gapless([], k)
  {}
}
