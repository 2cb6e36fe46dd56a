/** The sender of src/tx.cpp in trusted plaintext mode: payloads are framed, sent, and every
    k of them are followed by n - k parity fragments. */
module BlockSender {
  import opened Sequences
  import opened Bytes
  import opened GaloisField
  import opened GaloisTables
  import opened LinearAlgebra
  import opened FecMatrix
  import opened FecCodec
  import opened WireFormat
  import opened Reassembly

  /** What `send_block_fragment` injects: session, nonce and content. */
  datatype Packet = Packet(session: nat, nonce: nat, content: seq<Byte>)

  /** The block being filled: its number and the framed payloads it holds so far. */
  datatype Sender = Sender(block: nat, open: seq<seq<Byte>>)

  /** wpacket_hdr_t followed by the payload. */
  function Frame(flags: Byte, payload: seq<Byte>): (f: seq<Byte>)
    requires |payload| <= MAX_PAYLOAD_SIZE
    ensures PACKET_HEADER <= |f| <= MAX_FEC_PAYLOAD && |f| == PACKET_HEADER + |payload|
  {
    [flags, |payload| / 256, |payload| % 256] + payload
  }

  /** Every framed payload fits its buffer. */
  ghost predicate Framed(open: seq<seq<Byte>>) {
    forall i :: 0 <= i < |open| ==> PACKET_HEADER <= |open[i]| <= MAX_FEC_PAYLOAD
  }

  /** `max_packet_size` */
  function Longest(open: seq<seq<Byte>>): (m: nat)
    ensures forall i :: 0 <= i < |open| ==> |open[i]| <= m
    ensures m == 0 || exists i :: 0 <= i < |open| && m == |open[i]|
  {
    if open == [] then 0
    else
      var rest, last := open[..|open| - 1], open[|open| - 1];
      var m := Longest(rest);
      assert forall i :: 0 <= i < |rest| ==> rest[i] == open[i];
      if |last| > m then |last| else m
  }

  /** Byte b of the cleared buffers. */
  function OpenColumn(open: seq<seq<Byte>>, b: nat): (d: Vec)
    requires b < MAX_FEC_PAYLOAD
    ensures |d| == |open| && forall i :: 0 <= i < |open| ==> d[i] == Padded(open[i])[b]
  {
    seq(|open|, i requires 0 <= i < |open| => Padded(open[i])[b])
  }

  /** Fragment f of a full block: framed payloads first, then parity. */
  ghost function Fragment(open: seq<seq<Byte>>, f: nat): (content: seq<Byte>)
    requires open != [] && Longest(open) <= MAX_FEC_PAYLOAD
    ensures f < |open| ==> content == open[f]
    ensures f >= |open| ==> |content| == Longest(open)
  {
    if f < |open| then open[f]
    else seq(Longest(open), b requires 0 <= b < Longest(open) => Dot(GeneratorRow(|open|, f), OpenColumn(open, b)))
  }

  function Header(session: nat, node: Byte, block: nat, frag: nat, content: seq<Byte>): Packet
    requires frag < 256
  {
    Packet(session, MakeDataNonce(node, block, frag), content)
  }

  /** The parity fragments f .. n of a full block. */
  ghost function Parity(session: nat, node: Byte, block: nat, open: seq<seq<Byte>>, n: nat, f: nat): (p: seq<Packet>)
    requires open != [] && Longest(open) <= MAX_FEC_PAYLOAD && n <= 255
    ensures |p| == if f < n then n - f else 0
    decreases n - f
  {
    if f >= n then []
    else [Header(session, node, block, f, Fragment(open, f))] + Parity(session, node, block, open, n, f + 1)
  }

  ghost predicate SenderOk(s: Sender, k: nat) { |s.open| < k && Framed(s.open) }

  predicate FecOnly(flags: Byte) { flags % 2 == FEC_ONLY }

  /** `send_packet`: is the payload taken? */
  predicate Takes(s: Sender, flags: Byte) { s.open != [] || !FecOnly(flags) }

  ghost function Step(s: Sender, k: nat, flags: Byte, payload: seq<Byte>): (r: Sender)
    requires SenderOk(s, k) && |payload| <= MAX_PAYLOAD_SIZE
    ensures SenderOk(r, k)
  {
    if !Takes(s, flags) then s
    else
      var open := s.open + [Frame(flags, payload)];
      if |open| < k then Sender(s.block, open) else Sender(s.block + 1, [])
  }

  /** What `send_packet` puts on the air. */
  ghost function Emitted(s: Sender, k: nat, n: nat, session: nat, node: Byte, flags: Byte, payload: seq<Byte>): seq<Packet>
    requires CodeParameters(k, n) && SenderOk(s, k) && |payload| <= MAX_PAYLOAD_SIZE
  {
    if !Takes(s, flags) then []
    else
      var open := s.open + [Frame(flags, payload)];
      [Header(session, node, s.block, |s.open|, open[|s.open|])]
      + if |open| < k then [] else (LongestFits(open); Parity(session, node, s.block, open, n, k))
  }

  lemma LongestFits(open: seq<seq<Byte>>)
    requires Framed(open)
    ensures Longest(open) <= MAX_FEC_PAYLOAD
  {}

  // ---------- the object ----------

  class Transmitter {
    const tables: Tables
    const code: FecCode
    const session: nat              // data_session_id
    const node: Byte                // local_node_id
    const block: seq<array<GF>>     // n buffers
    var blockIdx: nat
    var fragmentIdx: nat
    var maxPacketSize: nat
    var air: seq<Packet>            // everything injected so far
    ghost var open: seq<seq<Byte>>  // what the buffers of the current block hold

    ghost predicate Buffers()
      reads this
    {
      && |block| == code.n && Distinct(block)
      && tables.exp !in block && tables.inverse !in block && code.encMatrix !in block
      && forall i :: 0 <= i < |block| ==> block[i].Length == BUFFER_SIZE
    }

    ghost predicate Coding()
      reads tables.exp, tables.log, tables.inverse, tables.mul, tables.mul16, code.encMatrix
    {
      tables.Ready() && code.Valid()
    }

    ghost predicate Filled(count: nat)
      reads this, block
    {
      |open| == count <= |block| && Framed(open)
      && forall i :: 0 <= i < count ==> block[i].Length >= MAX_FEC_PAYLOAD && block[i][..MAX_FEC_PAYLOAD] == Padded(open[i])
    }

    ghost predicate Valid()
      reads this, block, tables.exp, tables.log, tables.inverse, tables.mul, tables.mul16, code.encMatrix
    {
      Coding() && Buffers() && fragmentIdx < code.k && Filled(fragmentIdx) && maxPacketSize == Longest(open)
    }

    ghost function Model(): Sender
      reads this
    {
      Sender(blockIdx, open)
    }

    /** `init_session` */
    constructor (tables: Tables, code: FecCode, session: nat, node: Byte)
      requires tables.Ready() && code.Valid()
      ensures Valid() && Model() == Sender(0, []) && air == []
      ensures this.code == code && this.tables == tables && this.session == session && this.node == node
      ensures forall i :: 0 <= i < |block| ==> fresh(block[i])
    {
      this.tables := tables;
      this.code := code;
      this.session := session;
      this.node := node;
      var bufs := AllocateBuffers(code.n);
      block := bufs;
      blockIdx, fragmentIdx, maxPacketSize := 0, 0, 0;
      air, open := [], [];
    }

    /** `send_block_fragment` */
    method SendBlockFragment(packetSize: nat)
      requires fragmentIdx < |block| && fragmentIdx < 256 && packetSize <= MAX_FEC_PAYLOAD <= block[fragmentIdx].Length
      modifies this`air
      ensures air == old(air) + [Header(session, node, blockIdx, fragmentIdx, block[fragmentIdx][..packetSize])]
    {
      air := air + [Header(session, node, blockIdx, fragmentIdx, block[fragmentIdx][..packetSize])];
    }

    /** The framed payload in the cleared buffer. */
    method FillBuffer(flags: Byte, payload: seq<Byte>)
      requires Buffers() && fragmentIdx < |block| && |payload| <= MAX_PAYLOAD_SIZE
      modifies block[fragmentIdx]
      ensures block[fragmentIdx][..MAX_FEC_PAYLOAD] == Padded(Frame(flags, payload))
      ensures block[fragmentIdx][..PACKET_HEADER + |payload|] == Frame(flags, payload)
    {
      var b, size := block[fragmentIdx], |payload|;
      b[0], b[1], b[2] := flags, size / 256, size % 256;
      forall i | 0 <= i < size {
        b[PACKET_HEADER + i] := payload[i];
      }
      forall i | PACKET_HEADER + size <= i < MAX_FEC_PAYLOAD {
        b[i] := 0;
      }
      assert b[..PACKET_HEADER + size] == Frame(flags, payload);
    }

    /** One framed payload goes into its buffer. */
    method PutFrame(flags: Byte, payload: seq<Byte>)
      requires Buffers() && fragmentIdx < |block| && Filled(fragmentIdx) && |payload| <= MAX_PAYLOAD_SIZE
      modifies this`open, block[fragmentIdx]
      ensures Buffers() && Filled(fragmentIdx + 1) && open == old(open) + [Frame(flags, payload)]
      ensures block[fragmentIdx][..PACKET_HEADER + |payload|] == Frame(flags, payload)
    {
      hide Padded, Frame, Distinct;
      OtherBuffer(block, fragmentIdx);
      ghost var open0 := open;
      FillBuffer(flags, payload);
      open := open + [Frame(flags, payload)];
      forall i | 0 <= i < fragmentIdx
        ensures block[i].Length >= MAX_FEC_PAYLOAD && block[i][..MAX_FEC_PAYLOAD] == Padded(open[i])
      {
        assert open[i] == open0[i];
      }
    }

    /** One payload goes into the block and on the air. */
    method AddPayload(flags: Byte, payload: seq<Byte>)
      requires Valid() && |payload| <= MAX_PAYLOAD_SIZE
      modifies this`air, this`fragmentIdx, this`maxPacketSize, this`open, block[fragmentIdx]
      ensures Coding() && Buffers() && fragmentIdx == old(fragmentIdx) + 1 && Filled(fragmentIdx)
      ensures open == old(open) + [Frame(flags, payload)] && maxPacketSize == Longest(open)
      ensures air == old(air) + [Header(session, node, blockIdx, old(fragmentIdx), Frame(flags, payload))]
    {
      hide Padded, Frame, Longest, Tables.Ready, FecCode.Valid, MakeDataNonce, Distinct, Framed;
      CodeRange(code);
      LongestNext(open, Frame(flags, payload));
      PutFrame(flags, payload);
      SendBlockFragment(PACKET_HEADER + |payload|);
      if PACKET_HEADER + |payload| > maxPacketSize {
        maxPacketSize := PACKET_HEADER + |payload|;
      }
      fragmentIdx := fragmentIdx + 1;
    }

    /** The parity buffers of a full block. */
    method Encode()
      requires Coding() && Buffers() && Filled(code.k) && maxPacketSize == Longest(open)
      modifies block[code.k..]
      ensures Coding() && Buffers() && Longest(open) <= MAX_FEC_PAYLOAD
      ensures forall f :: code.k <= f < code.n ==> block[f][..maxPacketSize] == Fragment(open, f)
    {
      hide Tables.Ready, FecCode.Valid, Padded, Longest, RoundUpSimd, GeneratorRow, Dot;
      var k, n := code.k, code.n;
      CodeRange(code);
      LongestFits(open);
      RoundUpFits(maxPacketSize);
      var inpkts, fecs := block[..k], block[k..];
      forall i | 0 <= i < |fecs|
        ensures Writable(tables, fecs[i], inpkts, code.encMatrix)
      {
        assert fecs[i] == block[k + i];
      }
      FecEncode(tables, code, inpkts, fecs, RoundUpSimd(maxPacketSize));
      forall f | k <= f < n
        ensures block[f][..maxPacketSize] == Fragment(open, f)
      {
        forall b | 0 <= b < maxPacketSize
          ensures block[f][b] == Fragment(open, f)[b]
        {
          assert fecs[f - k] == block[f];
          SameColumn(inpkts, b);
        }
      }
    }

    /** Byte b of the filled buffers. */
    lemma SameColumn(inpkts: seq<array<GF>>, b: nat)
      requires Filled(|inpkts|) && inpkts == block[..|inpkts|] && b < MAX_FEC_PAYLOAD
      ensures (forall j :: 0 <= j < |inpkts| ==> b < inpkts[j].Length) && ByteColumn(inpkts, b) == OpenColumn(open, b)
    {
      hide Padded;
      forall j | 0 <= j < |inpkts|
        ensures b < inpkts[j].Length && inpkts[j][b] == Padded(open[j])[b]
      {
        assert inpkts[j][..MAX_FEC_PAYLOAD][b] == inpkts[j][b];
      }
    }

    /** The parity fragments go on the air. */
    method SendParity()
      requires Buffers() && code.n <= 255 && fragmentIdx <= code.n && open != [] && maxPacketSize <= MAX_FEC_PAYLOAD
      requires Longest(open) <= MAX_FEC_PAYLOAD
      requires forall f :: fragmentIdx <= f < code.n ==> block[f][..maxPacketSize] == Fragment(open, f)
      modifies this`air, this`fragmentIdx
      ensures air == old(air) + Parity(session, node, blockIdx, open, code.n, old(fragmentIdx))
    {
      hide Fragment, Longest;
      ghost var all := air + Parity(session, node, blockIdx, open, code.n, fragmentIdx);
      while fragmentIdx < code.n
        invariant old(fragmentIdx) <= fragmentIdx <= code.n
        invariant air + Parity(session, node, blockIdx, open, code.n, fragmentIdx) == all
      {
        ghost var now, rest := air, Parity(session, node, blockIdx, open, code.n, fragmentIdx + 1);
        ghost var next := Header(session, node, blockIdx, fragmentIdx, Fragment(open, fragmentIdx));
        SendBlockFragment(maxPacketSize);
        assert now + ([next] + rest) == air + rest;
        fragmentIdx := fragmentIdx + 1;
      }
      assert air + [] == air;
    }

    /** A full block gets its parity fragments, and the next one begins. */
    method CloseBlock()
      requires Coding() && Buffers() && Filled(code.k) && maxPacketSize == Longest(open) && fragmentIdx == code.k
      modifies this`air, this`blockIdx, this`fragmentIdx, this`maxPacketSize, this`open, block[code.k..]
      ensures Valid() && Model() == Sender(old(blockIdx) + 1, [])
      ensures 1 <= code.k <= code.n <= 255 && old(open) != [] && Longest(old(open)) <= MAX_FEC_PAYLOAD
      ensures air == old(air) + Parity(session, node, old(blockIdx), old(open), code.n, code.k)
    {
      hide Tables.Ready, FecCode.Valid, Fragment, Parity, Longest, Framed, Distinct, Padded;
      CodeRange(code);
      Encode();
      SendParity();
      blockIdx, fragmentIdx, maxPacketSize, open := blockIdx + 1, 0, 0, [];
      EmptyBlock();
    }

    /** `send_packet` */
    method SendPacket(flags: Byte, payload: seq<Byte>) returns (taken: bool)
      requires Valid() && |payload| <= MAX_PAYLOAD_SIZE
      modifies this`air, this`blockIdx, this`fragmentIdx, this`maxPacketSize, this`open, block
      ensures Valid() && taken == Takes(old(Model()), flags)
      ensures SenderOk(old(Model()), code.k) && CodeParameters(code.k, code.n)
      ensures Model() == Step(old(Model()), code.k, flags, payload)
      ensures air == old(air) + Emitted(old(Model()), code.k, code.n, session, node, flags, payload)
    {
      hide *;
      ghost var s, log := Model(), air;
      Parts();
      SendCases(s, code.k, code.n, session, node, flags, payload, air);
      TakesIs(s, flags);
      if fragmentIdx == 0 && FecOnly(flags) {
        return false;
      }
      AddPayload(flags, payload);
      if fragmentIdx < code.k {
        Whole();
        return true;
      }
      CloseBlock();
      taken := true;
    }

    lemma Parts()
      requires Valid()
      ensures Coding() && Buffers() && Filled(fragmentIdx) && maxPacketSize == Longest(open)
      ensures fragmentIdx == |open| < code.k && fragmentIdx < |block| == code.n
      ensures Model() == Sender(blockIdx, open) && SenderOk(Model(), code.k) && CodeParameters(code.k, code.n)
    {
      CodeRange(code);
    }

    lemma Whole()
      requires Coding() && Buffers() && fragmentIdx < code.k && Filled(fragmentIdx) && maxPacketSize == Longest(open)
      ensures Valid() && Model() == Sender(blockIdx, open)
    {}
  }

  lemma TakesIs(s: Sender, flags: Byte)
    ensures Takes(s, flags) <==> |s.open| != 0 || !FecOnly(flags)
  {}

  lemma EmptyBlock()
    ensures Framed([]) && Longest([]) == 0
  {}

  lemma OtherBuffer(bufs: seq<array<GF>>, f: nat)
    requires Distinct(bufs) && f < |bufs|
    ensures forall i :: 0 <= i < f ==> bufs[i] != bufs[f]
  {}

  /** The three outcomes of `send_packet`. */
  lemma SendCases(s: Sender, k: nat, n: nat, session: nat, node: Byte, flags: Byte, payload: seq<Byte>, log: seq<Packet>)
    requires CodeParameters(k, n) && SenderOk(s, k) && |payload| <= MAX_PAYLOAD_SIZE
    ensures var open := s.open + [Frame(flags, payload)];
            var first := Header(session, node, s.block, |s.open|, Frame(flags, payload));
            var r, added := Step(s, k, flags, payload), log + Emitted(s, k, n, session, node, flags, payload);
            && Framed(open) && Longest(open) <= MAX_FEC_PAYLOAD
            && if !Takes(s, flags) then r == s && added == log
               else if |open| < k then r == Sender(s.block, open) && added == log + [first]
               else r == Sender(s.block + 1, []) && added == log + [first] + Parity(session, node, s.block, open, n, k)
  {
    hide Frame, Parity, Longest;
    LongestFits(s.open + [Frame(flags, payload)]);
    assert log + [] == log;
  }

  lemma LongestNext(open: seq<seq<Byte>>, last: seq<Byte>)
    ensures Longest(open + [last]) == if |last| > Longest(open) then |last| else Longest(open)
  {
    assert (open + [last])[..|open|] == open;
  }

  lemma CodeRange(code: FecCode)
    requires code.Valid()
    ensures 1 <= code.k <= code.n <= 255
  {}

  lemma RoundUpFits(x: nat)
    requires x <= MAX_FEC_PAYLOAD
    ensures RoundUpSimd(x) <= BUFFER_SIZE
  {}

  method AllocateBuffers(n: nat) returns (bufs: seq<array<GF>>)
    ensures |bufs| == n && Distinct(bufs) && forall i :: 0 <= i < n ==> fresh(bufs[i]) && bufs[i].Length == BUFFER_SIZE
  {
    bufs := [];
    for i := 0 to n
      invariant |bufs| == i && Distinct(bufs) && forall x :: 0 <= x < i ==> fresh(bufs[x]) && bufs[x].Length == BUFFER_SIZE
    {
      var b := new GF[BUFFER_SIZE](x => 0);
      assert b !in bufs;
      bufs := bufs + [b];
    }
  }
}
