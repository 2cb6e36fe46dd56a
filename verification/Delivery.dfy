/** A receiver that only ever gets what one sender put on the air shows its output exactly the
    framed payloads of that sender, whichever fragments arrive. */
module Delivery {
  import opened Bytes
  import opened GaloisField
  import opened LinearAlgebra
  import opened GaussJordan
  import opened FecMatrix
  import opened FecCodec
  import opened WireFormat
  import opened Reassembly
  import opened ReassemblyInvariants
  import opened BlockSender

  /** The framed payloads of one block; they are numbered through all blocks. */
  function BlockFrames(frames: seq<seq<Byte>>, k: nat, block: nat): (open: seq<seq<Byte>>)
    requires (block + 1) * k <= |frames|
    ensures |open| == k && forall f :: 0 <= f < k ==> block * k + f < |frames| && open[f] == frames[block * k + f]
  {
    assert block * k + k == (block + 1) * k;
    frames[block * k..block * k + k]
  }

  /** The content of a fragment that the sender of these frames made. */
  ghost predicate FragOk(frames: seq<seq<Byte>>, k: nat, n: nat, block: nat, f: nat, content: seq<Byte>)
    requires CodeParameters(k, n) && Framed(frames)
  {
    f < n &&
    if f < k then block * k + f < |frames| && content == frames[block * k + f]
    else (block + 1) * k <= |frames|
         && (BlockFits(frames, k, block); content == Fragment(BlockFrames(frames, k, block), f))
  }

  lemma BlockFits(frames: seq<seq<Byte>>, k: nat, block: nat)
    requires k >= 1 && Framed(frames) && (block + 1) * k <= |frames|
    ensures Framed(BlockFrames(frames, k, block)) && BlockFrames(frames, k, block) != []
    ensures Longest(BlockFrames(frames, k, block)) <= MAX_FEC_PAYLOAD
  {}

  ghost predicate SlotTrue(frames: seq<seq<Byte>>, k: nat, n: nat, slot: Slot)
    requires CodeParameters(k, n) && Framed(frames)
  {
    forall f :: f in slot.frags ==> FragOk(frames, k, n, slot.block, f, slot.frags[f])
  }

  /** The buffer begins with the frame. */
  predicate Shows(buffer: seq<Byte>, frame: seq<Byte>) {
    |frame| <= |buffer| && buffer[..|frame|] == frame
  }

  /** Output gets the frame of its block and fragment. */
  ghost predicate SendTrue(frames: seq<seq<Byte>>, k: nat, e: Send) {
    e.frag < k && e.block * k + e.frag < |frames| && Shows(e.buffer, frames[e.block * k + e.frag])
  }

  ghost predicate AllTrue(frames: seq<seq<Byte>>, k: nat, sends: seq<Send>) {
    forall i :: 0 <= i < |sends| ==> SendTrue(frames, k, sends[i])
  }

  lemma AllTrueJoin(frames: seq<seq<Byte>>, k: nat, a: seq<Send>, b: seq<Send>)
    requires AllTrue(frames, k, a) && AllTrue(frames, k, b)
    ensures AllTrue(frames, k, a + b)
  {}

  lemma AllTrueOne(frames: seq<seq<Byte>>, k: nat, e: Send)
    requires SendTrue(frames, k, e)
    ensures AllTrue(frames, k, [e]) && AllTrue(frames, k, [])
  {}

  lemma NoneTrue(frames: seq<seq<Byte>>, k: nat)
    ensures AllTrue(frames, k, [])
  {}

  // ---------- decoding ----------

  /** A cleared buffer: the content, then zeros. */
  lemma PaddedByte(content: seq<Byte>, b: nat)
    requires |content| <= MAX_FEC_PAYLOAD && b < MAX_FEC_PAYLOAD
    ensures |Padded(content)| == MAX_FEC_PAYLOAD && Padded(content)[b] == if b < |content| then content[b] else 0
  {}

  lemma DotComm(u: Vec, v: Vec)
    requires |u| == |v|
    ensures Dot(u, v) == Dot(v, u)
  {
    DotToComm(u, v, |u|);
  }

  /** A row of the generator for a primary fragment picks its byte. */
  lemma PrimaryByte(d: Vec, k: nat, c: nat)
    requires |d| == k && c < k
    ensures Dot(GeneratorRow(k, c), d) == d[c]
  {
    GeneratorUnit(k, c);
    hide GeneratorRow, Dot;
    DotUnit(d, c);
    DotComm(d, Unit(k, c));
  }

  /** The parity of zeros is zero. */
  lemma ZeroByte(d: Vec, k: nat, c: nat)
    requires |d| == k >= 1 && forall i :: 0 <= i < k ==> d[i] == 0
    ensures Dot(GeneratorRow(k, c), d) == 0
  {
    hide GeneratorRow;
    DotToZero(GeneratorRow(k, c), d, k);
  }

  /** Beyond the longest frame all buffers are cleared. */
  lemma ClearedColumn(open: seq<seq<Byte>>, b: nat)
    requires Longest(open) <= b < MAX_FEC_PAYLOAD
    ensures forall i :: 0 <= i < |open| ==> OpenColumn(open, b)[i] == 0
  {
    hide OpenColumn, Padded, Longest;
    forall i | 0 <= i < |open|
      ensures Padded(open[i])[b] == 0
    {
      PaddedByte(open[i], b);
    }
  }

  lemma ParityByte(open: seq<seq<Byte>>, c: nat, b: nat)
    requires |open| >= 1 && c >= |open| && b < Longest(open) <= MAX_FEC_PAYLOAD
    ensures Fragment(open, c)[b] == Dot(GeneratorRow(|open|, c), OpenColumn(open, b))
  {
    hide GeneratorRow, Dot, OpenColumn, Longest;
  }

  /** Byte b of fragment c of a full block is row c of the generator applied to byte b of the frames,
      also in the cleared part of the buffers. */
  lemma FragmentByte(open: seq<seq<Byte>>, k: nat, c: nat, b: nat)
    requires k >= 1 && |open| == k && Framed(open) && Longest(open) <= MAX_FEC_PAYLOAD && b < MAX_FEC_PAYLOAD
    ensures |Padded(Fragment(open, c))| == MAX_FEC_PAYLOAD
    ensures Padded(Fragment(open, c))[b] == Dot(GeneratorRow(k, c), OpenColumn(open, b))
  {
    var d := OpenColumn(open, b);
    assert c < k ==> |open[c]| <= MAX_FEC_PAYLOAD;
    hide *;
    if c < k {
      PrimaryByte(d, k, c);
      PaddedByte(open[c], b);
    } else {
      PaddedByte(Fragment(open, c), b);
      if b >= Longest(open) {
        ClearedColumn(open, b);
        ZeroByte(d, k, c);
      } else {
        ParityByte(open, c, b);
      }
    }
  }

  /** What arrived for a block, seen from the frames of the block. */
  ghost predicate FromBlock(open: seq<seq<Byte>>, frags: map<nat, seq<Byte>>) {
    open != [] && Longest(open) <= MAX_FEC_PAYLOAD && Framed(open) && forall f :: f in frags ==> frags[f] == Fragment(open, f)
  }

  /** The fragments that are chosen for decoding are a codeword of the frames at every byte. */
  lemma ChosenCodeword(open: seq<seq<Byte>>, frags: map<nat, seq<Byte>>, k: nat, chosen: seq<nat>, b: nat)
    requires |open| == |chosen| == k && FromBlock(open, frags) && b < MAX_FEC_PAYLOAD
    requires forall i :: 0 <= i < k ==> chosen[i] in frags
    ensures Codeword(k, chosen, ChosenColumn(frags, chosen, b), OpenColumn(open, b))
  {
    hide Dot, GeneratorRow, Padded, Fragment, Longest, Framed;
    forall i | 0 <= i < k
      ensures Padded(frags[chosen[i]])[b] == Dot(GeneratorRow(k, chosen[i]), OpenColumn(open, b))
    {
      FragmentByte(open, k, chosen[i], b);
    }
  }

  /** With a primary fragment missing, the longest parity fragment is as long as the longest frame. */
  lemma ChosenLength(open: seq<seq<Byte>>, frags: map<nat, seq<Byte>>, k: nat, chosen: seq<nat>, f: nat)
    requires |open| == |chosen| == k && FromBlock(open, frags) && f < k && chosen[f] >= k
    requires forall i :: 0 <= i < k ==> chosen[i] in frags
    ensures Longest(open) <= DecodeLength(frags, k, chosen)
  {
    hide Longest, RoundUpSimd, Framed;
    assert |frags[chosen[f]]| == Longest(open);
  }

  /** Any k fragments of a block give back every missing frame. */
  lemma DecodedShows(open: seq<seq<Byte>>, frags: map<nat, seq<Byte>>, k: nat, n: nat, f: nat)
    requires CodeParameters(k, n) && (forall x :: x in frags ==> x < n) && |frags| == k
    requires |open| == k && FromBlock(open, frags) && f < k && f !in frags
    ensures Shows(Decoded(frags, k, n, f), open[f])
  {
    hide *;
    var c := Chosen(frags, k, n);
    DecodedByte(frags, k, n, f, 0);
    MissingChosen(frags, k, n, f);
    ChosenLength(open, frags, k, c, f);
    LongestFrame(open, frags, f);
    forall b | 0 <= b < |open[f]|
      ensures b < |Decoded(frags, k, n, f)| && Decoded(frags, k, n, f)[b] == open[f][b]
    {
      DecodedIsFrame(open, frags, k, n, f, b);
      PaddedByte(open[f], b);
    }
    ShowsByBytes(Decoded(frags, k, n, f), open[f]);
  }

  lemma ShowsByBytes(buffer: seq<Byte>, frame: seq<Byte>)
    requires |frame| <= |buffer| && forall b :: 0 <= b < |frame| ==> buffer[b] == frame[b]
    ensures Shows(buffer, frame)
  {}

  lemma LongestFrame(open: seq<seq<Byte>>, frags: map<nat, seq<Byte>>, f: nat)
    requires f < |open| && FromBlock(open, frags)
    ensures |open[f]| <= Longest(open) <= MAX_FEC_PAYLOAD
  {}

  lemma MissingChosen(frags: map<nat, seq<Byte>>, k: nat, n: nat, f: nat)
    requires CodeParameters(k, n) && (forall x :: x in frags ==> x < n) && |frags| == k && f < k && f !in frags
    ensures Chosen(frags, k, n)[f] >= k
  {
    ChosenOk(frags, k, n);
    hide Chosen;
  }

  /** Every byte that is decoded is the byte of the frame in its cleared buffer. */
  lemma DecodedIsFrame(open: seq<seq<Byte>>, frags: map<nat, seq<Byte>>, k: nat, n: nat, f: nat, b: nat)
    requires CodeParameters(k, n) && (forall x :: x in frags ==> x < n) && |frags| == k
    requires |open| == k && FromBlock(open, frags) && f < k
    requires (forall i :: 0 <= i < k ==> Chosen(frags, k, n)[i] in frags) && b < DecodeLength(frags, k, Chosen(frags, k, n))
    ensures |Decoded(frags, k, n, f)| == DecodeLength(frags, k, Chosen(frags, k, n))
    ensures Decoded(frags, k, n, f)[b] == Padded(open[f])[b]
  {
    var c := Chosen(frags, k, n);
    DecodedByte(frags, k, n, f, b);
    hide *;
    ChosenCodeword(open, frags, k, c, b);
    SolvedUnique(k, n, c, ChosenColumn(frags, c, b), OpenColumn(open, b));
  }

  lemma DecodedByte(frags: map<nat, seq<Byte>>, k: nat, n: nat, f: nat, b: nat)
    requires CodeParameters(k, n) && (forall x :: x in frags ==> x < n) && |frags| == k && f < k
    ensures DistinctBlocks(Chosen(frags, k, n), n) && forall i :: 0 <= i < k ==> Chosen(frags, k, n)[i] in frags
    ensures |Decoded(frags, k, n, f)| == DecodeLength(frags, k, Chosen(frags, k, n))
    ensures var c := Chosen(frags, k, n);
            b < DecodeLength(frags, k, c) ==> Decoded(frags, k, n, f)[b] == Solved(k, n, c, ChosenColumn(frags, c, b))[f]
  {
    ChosenOk(frags, k, n);
    hide Chosen, DecodeLength, Solved;
  }

  // ---------- every step hands over true frames ----------

  lemma PaddedShows(content: seq<Byte>)
    ensures Shows(Padded(content), content)
  {}

  lemma PrimaryTrue(frames: seq<seq<Byte>>, k: nat, n: nat, session: nat, slot: Slot, f: nat)
    requires CodeParameters(k, n) && Framed(frames) && SlotTrue(frames, k, n, slot) && f < k && f in slot.frags
    ensures SendTrue(frames, k, Send(session, slot.block, f, Padded(slot.frags[f])))
  {
    PaddedShows(slot.frags[f]);
    hide Padded, Shows;
  }

  lemma {:induction false} FlushTrue(frames: seq<seq<Byte>>, k: nat, n: nat, session: nat, slot: Slot, f: nat)
    requires CodeParameters(k, n) && Framed(frames) && SlotTrue(frames, k, n, slot)
    ensures AllTrue(frames, k, Flush(session, slot, k, f))
    decreases k - f
  {
    hide SendTrue, AllTrue, SlotTrue, Padded;
    NoneTrue(frames, k);
    if f < k {
      FlushTrue(frames, k, n, session, slot, f + 1);
      var none: seq<Send> := [];
      if f in slot.frags {
        PrimaryTrue(frames, k, n, session, slot, f);
        var e := Send(session, slot.block, f, Padded(slot.frags[f]));
        AllTrueOne(frames, k, e);
        AllTrueJoin(frames, k, [e], Flush(session, slot, k, f + 1));
      } else {
        assert none + Flush(session, slot, k, f + 1) == Flush(session, slot, k, f + 1);
      }
    }
  }

  lemma {:induction false} PrefixTrue(frames: seq<seq<Byte>>, k: nat, n: nat, session: nat, slot: Slot, f: nat, hi: nat)
    requires CodeParameters(k, n) && Framed(frames) && SlotTrue(frames, k, n, slot)
    requires hi <= k && forall x :: f <= x < hi ==> x in slot.frags
    ensures AllTrue(frames, k, Prefix(session, slot, k, f, hi))
    decreases hi - f
  {
    hide SendTrue, AllTrue, SlotTrue, Padded;
    NoneTrue(frames, k);
    if f < hi {
      PrefixTrue(frames, k, n, session, slot, f + 1, hi);
      PrimaryTrue(frames, k, n, session, slot, f);
      var e := Send(session, slot.block, f, Padded(slot.frags[f]));
      AllTrueOne(frames, k, e);
      AllTrueJoin(frames, k, [e], Prefix(session, slot, k, f + 1, hi));
    }
  }

  lemma {:induction false} FlushAllTrue(frames: seq<seq<Byte>>, k: nat, n: nat, session: nat, slots: seq<Slot>)
    requires CodeParameters(k, n) && Framed(frames) && forall i :: 0 <= i < |slots| ==> SlotTrue(frames, k, n, slots[i])
    ensures AllTrue(frames, k, FlushAll(session, slots, k))
  {
    hide AllTrue, SlotTrue, Flush;
    NoneTrue(frames, k);
    if slots != [] {
      FlushTrue(frames, k, n, session, slots[0], slots[0].toSend);
      FlushAllTrue(frames, k, n, session, slots[1..]);
      AllTrueJoin(frames, k, Flush(session, slots[0], k, slots[0].toSend), FlushAll(session, slots[1..], k));
    }
  }

  /** A complete block with a primary fragment missing holds a parity fragment. */
  lemma SecondaryThere(frags: map<nat, seq<Byte>>, k: nat, n: nat, f: nat) returns (c: nat)
    requires CodeParameters(k, n) && (forall x :: x in frags ==> x < n) && |frags| == k && f < k && f !in frags
    ensures c in frags && c >= k
  {
    ChosenOk(frags, k, n);
    c := Chosen(frags, k, n)[f];
    hide Chosen;
  }

  lemma SlotFromBlock(frames: seq<seq<Byte>>, k: nat, n: nat, slot: Slot, c: nat)
    requires CodeParameters(k, n) && Framed(frames) && SlotTrue(frames, k, n, slot) && c in slot.frags && c >= k
    ensures (slot.block + 1) * k <= |frames| && FromBlock(BlockFrames(frames, k, slot.block), slot.frags)
  {
    assert FragOk(frames, k, n, slot.block, c, slot.frags[c]);
    BlockFits(frames, k, slot.block);
    var open := BlockFrames(frames, k, slot.block);
    hide Longest, BlockFrames;
    forall f | f in slot.frags
      ensures slot.frags[f] == Fragment(open, f)
    {
      assert FragOk(frames, k, n, slot.block, f, slot.frags[f]);
    }
  }

  /** What a complete block hands over for fragment f is its frame. */
  lemma BufferTrue(frames: seq<seq<Byte>>, k: nat, n: nat, session: nat, slot: Slot, f: nat)
    requires Complete(slot, k, n) && Framed(frames) && SlotTrue(frames, k, n, slot) && f < k
    ensures SendTrue(frames, k, Send(session, slot.block, f, Buffer(slot, k, n, f)))
  {
    if f in slot.frags {
      PrimaryTrue(frames, k, n, session, slot, f);
    } else {
      var c := SecondaryThere(slot.frags, k, n, f);
      SlotFromBlock(frames, k, n, slot, c);
      hide SlotTrue, FromBlock, Decoded, Shows;
      DecodedShows(BlockFrames(frames, k, slot.block), slot.frags, k, n, f);
    }
  }

  lemma {:induction false} SendRestTrue(frames: seq<seq<Byte>>, k: nat, n: nat, session: nat, slot: Slot, f: nat)
    requires Complete(slot, k, n) && Framed(frames) && SlotTrue(frames, k, n, slot)
    ensures AllTrue(frames, k, SendRest(session, slot, k, n, f))
    decreases k - f
  {
    hide SendTrue, AllTrue, SlotTrue, Buffer;
    NoneTrue(frames, k);
    if f < k {
      SendRestTrue(frames, k, n, session, slot, f + 1);
      BufferTrue(frames, k, n, session, slot, f);
      var e := Send(session, slot.block, f, Buffer(slot, k, n, f));
      AllTrueOne(frames, k, e);
      AllTrueJoin(frames, k, [e], SendRest(session, slot, k, n, f + 1));
    }
  }

  // ---------- the receiver ----------

  /** Everything held and everything handed over is the sender's. */
  ghost predicate SourceTrue(frames: seq<seq<Byte>>, k: nat, n: nat, s: Source)
    requires CodeParameters(k, n) && Framed(frames)
  {
    AllTrue(frames, k, s.sends) && forall i :: 0 <= i < |s.queue| ==> SlotTrue(frames, k, n, s.queue[i])
  }

  lemma EmitTrue(frames: seq<seq<Byte>>, k: nat, n: nat, s: Source, more: seq<Send>)
    requires CodeParameters(k, n) && Framed(frames) && SourceTrue(frames, k, n, s) && AllTrue(frames, k, more)
    ensures SourceTrue(frames, k, n, Emit(s, more))
  {
    hide SlotTrue;
    AllTrueJoin(frames, k, s.sends, more);
  }

  lemma EmptySlotTrue(frames: seq<seq<Byte>>, k: nat, n: nat, block: nat)
    requires CodeParameters(k, n) && Framed(frames)
    ensures SlotTrue(frames, k, n, Slot(block, 0, 0, map[]))
  {}

  lemma PushTrue(frames: seq<seq<Byte>>, k: nat, n: nat, s: Source, block: nat)
    requires CodeParameters(k, n) && Framed(frames) && SourceTrue(frames, k, n, s)
    ensures SourceTrue(frames, k, n, Push(s, k, block))
  {
    EmptySlotTrue(frames, k, n, block);
    hide AllTrue, SlotTrue, Flush;
    if |s.queue| >= RING_SIZE {
      FlushTrue(frames, k, n, s.session, s.queue[0], s.queue[0].toSend);
      EmitTrue(frames, k, n, s, Flush(s.session, s.queue[0], k, s.queue[0].toSend));
    }
  }

  lemma {:induction false} PushUpToTrue(frames: seq<seq<Byte>>, k: nat, n: nat, s: Source, block: nat, count: nat, i: nat)
    requires CodeParameters(k, n) && Framed(frames) && SourceTrue(frames, k, n, s) && i <= count <= block + 1
    ensures SourceTrue(frames, k, n, PushUpTo(s, k, block, count, i))
  {
    hide SourceTrue, Push;
    if i > 0 {
      PushUpToTrue(frames, k, n, s, block, count, i - 1);
      PushTrue(frames, k, n, PushUpTo(s, k, block, count, i - 1), block + i - count);
    }
  }

  lemma OpenTrue(frames: seq<seq<Byte>>, k: nat, n: nat, s: Source, block: nat)
    requires CodeParameters(k, n) && Framed(frames) && SourceTrue(frames, k, n, s) && block > s.last >= -1
    ensures SourceTrue(frames, k, n, Open(s, k, block))
  {
    var c := NewBlocks(s, block);
    assert SourceTrue(frames, k, n, s.(last := block));
    hide SourceTrue;
    PushUpToTrue(frames, k, n, s.(last := block), block, c, c);
  }

  lemma InsertTrue(frames: seq<seq<Byte>>, k: nat, n: nat, s: Source, i: nat, f: nat, content: seq<Byte>)
    requires CodeParameters(k, n) && Framed(frames) && SourceTrue(frames, k, n, s)
    requires i < |s.queue| && SlotOk(s.queue[i], k, n) && FragOk(frames, k, n, s.queue[i].block, f, content)
    ensures SourceTrue(frames, k, n, Insert(s, k, n, i, f, content))
  {
    if f !in s.queue[i].frags {
      var p := s.queue[i];
      var q := Marked(p, f, content);
      MarkOk(p, k, n, f, content);
      assert SlotTrue(frames, k, n, q) by { MarkedTrue(frames, k, n, p, f, content); }
      hide FragOk, SlotTrue, AllTrue, Framed, FlushAll, Prefix, SendRest, FirstMissing;
      if i == 0 {
        var next := FirstMissing(q.frags, k, q.toSend);
        PrefixTrue(frames, k, n, s.session, q, q.toSend, next);
        var sent := Prefix(s.session, q, k, q.toSend, next);
        EmitTrue(frames, k, n, s, sent);
        if q.has == k {
          SendRestTrue(frames, k, n, s.session, q, next);
          AllTrueJoin(frames, k, sent, SendRest(s.session, q, k, n, next));
          EmitTrue(frames, k, n, s, sent + SendRest(s.session, q, k, n, next));
        }
        SlotSame(frames, k, n, q, next);
      } else if q.has == k {
        FlushAllTrue(frames, k, n, s.session, s.queue[..i]);
        SendRestTrue(frames, k, n, s.session, q, q.toSend);
        AllTrueJoin(frames, k, FlushAll(s.session, s.queue[..i], k), SendRest(s.session, q, k, n, q.toSend));
        EmitTrue(frames, k, n, s, FlushAll(s.session, s.queue[..i], k) + SendRest(s.session, q, k, n, q.toSend));
      }
    }
  }

  lemma MarkedTrue(frames: seq<seq<Byte>>, k: nat, n: nat, p: Slot, f: nat, content: seq<Byte>)
    requires CodeParameters(k, n) && Framed(frames) && SlotTrue(frames, k, n, p) && FragOk(frames, k, n, p.block, f, content)
    ensures SlotTrue(frames, k, n, Marked(p, f, content))
  {
    hide FragOk, Framed;
  }

  lemma SlotSame(frames: seq<seq<Byte>>, k: nat, n: nat, q: Slot, next: nat)
    requires CodeParameters(k, n) && Framed(frames) && SlotTrue(frames, k, n, q)
    ensures SlotTrue(frames, k, n, q.(toSend := next))
  {
    hide FragOk, Framed;
  }

  /** A genuine fragment keeps everything genuine. */
  lemma ReceiveTrue(frames: seq<seq<Byte>>, k: nat, n: nat, s: Source, session: nat, block: nat, f: nat, content: seq<Byte>)
    requires CodeParameters(k, n) && Framed(frames) && SourceOk(s, k, n) && SourceTrue(frames, k, n, s)
    requires FragOk(frames, k, n, block, f, content)
    ensures SourceTrue(frames, k, n, Receive(s, k, n, session, block, f, content))
  {
    hide Insert, Open, FragOk, SlotTrue, AllTrue, Framed;
    if f < n && Acceptable(s, session) {
      var t := EnterSession(s, session);
      var i := Find(t.queue, block);
      if i < |t.queue| {
        InsertTrue(frames, k, n, t, i, f, content);
      } else if block > t.last {
        OpenOk(t, k, n, block);
        OpenTrue(frames, k, n, t, block);
        InsertTrue(frames, k, n, Open(t, k, block), |Open(t, k, block).queue| - 1, f, content);
      }
    }
  }
}
