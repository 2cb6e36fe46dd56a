/** The per-source state of src/rx.cpp as the code keeps it: a ring of forty items with a
    front index and a count.  Every method is proved against the functions of `Reassembly`. */
module ReassemblyRing {
  import opened Bytes
  import opened Sequences
  import opened GaloisTables
  import opened LinearAlgebra
  import opened GaussJordan
  import opened FecMatrix
  import opened FecCodec
  import opened WireFormat
  import opened Reassembly
  import opened ReassemblyInvariants
  import opened SlotDecoding

  /** The remainder of C: it takes the sign of the dividend. */
  function Remainder(x: int, base: nat): int
    requires base > 0
  {
    if x >= 0 then x % base else -((-x) % base)
  }

  function ModN(x: int, base: nat): (r: int)
    requires base > 0
    ensures 0 <= r < base
  {
    (base + Remainder(x, base)) % base
  }

  /** One turn round the ring at most. */
  lemma ModNWraps(x: int)
    requires -RING_SIZE < x < 2 * RING_SIZE
    ensures ModN(x, RING_SIZE) == if x < 0 then x + RING_SIZE else if x < RING_SIZE then x else x - RING_SIZE
  {}

  class RxSource {
    const tables: Tables
    const code: FecCode
    const ring: array<Slot>
    var front: nat
    var alloc: nat
    var last: int          // last_known_block; -1 stands for the largest 64-bit value
    var hasSession: bool
    var session: nat
    var retired: set<nat>
    var sends: seq<Send>   // the calls of send_packet so far

    ghost function Queue(): (q: seq<Slot>)
      requires ring.Length == RING_SIZE && front < RING_SIZE && alloc <= RING_SIZE
      reads this`front, this`alloc, ring
      ensures |q| == alloc && forall i :: 0 <= i < alloc ==> q[i] == ring[At(front, i, RING_SIZE)]
    {
      var first, count := front, alloc;
      seq(count, i requires 0 <= i < count reads ring => ring[At(first, i, RING_SIZE)])
    }

    ghost predicate Shape()
      reads this`front, this`alloc
    {
      ring.Length == RING_SIZE && front < RING_SIZE && alloc <= RING_SIZE
    }

    ghost function Model(): Source
      requires Shape()
      reads this, ring
    {
      Source(hasSession, session, retired, Queue(), last, sends)
    }

    ghost predicate Coding()
      reads tables.exp, tables.log, tables.inverse, tables.mul, tables.mul16, code.encMatrix
    {
      tables.Ready() && code.Valid()
    }

    ghost predicate Valid()
      reads this, ring, tables.exp, tables.log, tables.inverse, tables.mul, tables.mul16, code.encMatrix
    {
      Shape() && Coding() && SourceOk(Model(), code.k, code.n) && AllSized(Queue())
    }

    /** `init_source_state` */
    constructor (tables: Tables, code: FecCode)
      requires tables.Ready() && code.Valid()
      ensures Valid() && Model() == FRESH_SOURCE && fresh(ring)
      ensures this.tables == tables && this.code == code
    {
      this.tables := tables;
      this.code := code;
      ring := new Slot[RING_SIZE](i => Slot(0, 0, 0, map[]));
      front, alloc, last := 0, 0, -1;
      hasSession, session, retired, sends := false, 0, {}, [];
    }

    /** `reset_source_reassembly` */
    method ResetReassembly()
      requires Shape()
      modifies this`front, this`alloc, this`last, ring
      ensures Shape() && Model() == Reset(old(Model()))
    {
      front, alloc, last := 0, 0, -1;
      for i := 0 to RING_SIZE
        invariant Shape() && alloc == 0 && last == -1
      {
        ring[i] := Slot(0, 0, 0, map[]);
      }
      assert Queue() == [];
    }

    /** `accept_data_session` */
    method AcceptDataSession(id: nat) returns (ok: bool)
      requires Shape()
      modifies this`front, this`alloc, this`last, this`hasSession, this`session, this`retired, ring
      ensures Shape()
      ensures ok <==> Acceptable(old(Model()), id)
      ensures Model() == if ok then EnterSession(old(Model()), id) else old(Model())
    {
      if id == 0 { return false; }
      if hasSession && session != id {
        if id in retired {
          return false;
        }
        retired := retired + {session};
        ResetReassembly();
      }
      hasSession := true;
      session := id;
      ok := true;
    }

    /** `send_packet`: the fragment and its buffer go to the log. */
    method SendPacket(slot: Slot, f: nat, buffer: seq<Byte>)
      modifies this`sends
      ensures sends == old(sends) + [Send(session, slot.block, f, buffer)]
    {
      sends := sends + [Send(session, slot.block, f, buffer)];
    }

    /** Sends the marked fragments of a slot, from the first unsent one on. */
    method FlushSlot(slot: Slot)
      requires slot.toSend <= code.k
      modifies this`sends
      ensures sends == old(sends) + Flush(session, slot, code.k, slot.toSend)
    {
      var none: seq<Send> := [];
      assert old(sends) + Flush(session, slot, code.k, slot.toSend) == sends + Flush(session, slot, code.k, slot.toSend);
      var f := slot.toSend;
      while f < code.k
        invariant slot.toSend <= f <= code.k
        invariant sends + Flush(session, slot, code.k, f) == old(sends) + Flush(session, slot, code.k, slot.toSend)
      {
        ghost var rest := Flush(session, slot, code.k, f + 1);
        if f in slot.frags {
          ghost var e := [Send(session, slot.block, f, Padded(slot.frags[f]))];
          assert sends + (e + rest) == sends + e + rest;
          SendPacket(slot, f, Padded(slot.frags[f]));
        } else {
          assert none + rest == rest;
        }
        f := f + 1;
      }
      assert sends + none == sends;
    }

    /** `rx_ring_push`: the index of a slot at the end of the queue, evicting the front one if the ring is full. */
    method RxRingPush() returns (idx: nat)
      requires Shape() && forall i :: 0 <= i < alloc ==> Queue()[i].toSend <= code.k
      modifies this`front, this`alloc, this`sends
      ensures Shape() && alloc == (if old(alloc) < RING_SIZE then old(alloc) + 1 else RING_SIZE)
      ensures idx == At(front, alloc - 1, RING_SIZE)
      ensures Queue()[..alloc - 1] == if old(alloc) < RING_SIZE then old(Queue()) else old(Queue())[1..]
      ensures sends == old(sends) + if old(alloc) < RING_SIZE then []
                                    else Flush(session, old(Queue())[0], code.k, old(Queue())[0].toSend)
    {
      if alloc < RING_SIZE {
        ModNWraps(front + alloc);
        idx := ModN(front + alloc, RING_SIZE);
        alloc := alloc + 1;
        return;
      }
      assert Queue()[0] == ring[front];
      FlushSlot(ring[front]);
      idx := front;
      ModNWraps(front + 1);
      front := ModN(front + 1, RING_SIZE);
    }

    /** A pushed slot, initialised for its block. */
    method PushBlock(block: nat) returns (idx: nat)
      requires Shape() && forall i :: 0 <= i < alloc ==> Queue()[i].toSend <= code.k
      modifies this`front, this`alloc, this`sends, ring
      ensures Shape() && alloc > 0 && idx == At(front, alloc - 1, RING_SIZE)
      ensures Model() == Push(old(Model()), code.k, block)
    {
      hide Flush, At;
      ghost var q, log := Queue(), sends;
      var slot := Slot(block, 0, 0, map[]);
      idx := RxRingPush();
      WriteLast(idx, slot);
      assert Queue() == (if |q| < RING_SIZE then q else q[1..]) + [slot];
      if |q| < RING_SIZE { assert log + [] == log; }
    }

    /** Writing the item at the end of the queue. */
    method WriteLast(idx: nat, slot: Slot)
      requires Shape() && alloc > 0 && idx == At(front, alloc - 1, RING_SIZE)
      modifies ring
      ensures Queue() == old(Queue())[..alloc - 1] + [slot]
    {
      ghost var q := Queue();
      ring[idx] := slot;
      forall i | 0 <= i < alloc - 1
        ensures Queue()[i] == q[i]
      {
        assert At(front, i, RING_SIZE) != idx;
      }
    }

    /** Writing the item of queue position i. */
    method SetSlot(i: nat, slot: Slot)
      requires Shape() && i < alloc
      modifies ring
      ensures Shape() && Model() == old(Model()).(queue := old(Queue())[i := slot])
    {
      ghost var q := Queue();
      ring[At(front, i, RING_SIZE)] := slot;
      assert Queue() == q[i := slot];
    }

    /** Dropping the front item. */
    method PopFront()
      requires Shape() && alloc > 0
      modifies this`front, this`alloc
      ensures Shape() && Model() == old(Model()).(queue := old(Queue())[1..])
    {
      ghost var q := Queue();
      ModNWraps(front + 1);
      front := ModN(front + 1, RING_SIZE);
      alloc := alloc - 1;
      assert Queue() == q[1..];
    }

    /** The search of `get_block_ring_idx`: the queue position of a block. */
    method FindBlock(block: nat) returns (pos: nat)
      requires Shape()
      ensures pos == Find(Queue(), block)
    {
      var i, c := front, alloc;
      while c > 0
        invariant 0 <= c <= alloc && i < RING_SIZE
        invariant c > 0 ==> i == At(front, alloc - c, RING_SIZE)
        invariant forall x :: 0 <= x < alloc - c ==> Queue()[x].block != block
      {
        if ring[i].block == block {
          FindFirst(Queue(), block, alloc - c);
          return alloc - c;
        }
        ModNWraps(i + 1);
        i := ModN(i + 1, RING_SIZE);
        c := c - 1;
      }
      FindNone(Queue(), block);
      pos := alloc;
    }

    /** Its pushes: a slot for the new block and for the ones that were skipped, forty at most. */
    method OpenBlock(block: nat)
      requires Shape() && code.k >= 1 && SourceOk(Model(), code.k, code.n) && block > last
      modifies this`front, this`alloc, this`last, this`sends, ring
      ensures Shape() && Model() == Open(old(Model()), code.k, block)
    {
      hide SourceOk, SlotOk, Push, PushUpTo, Open, NewBlocks, At, Model, Queue;
      ghost var s := Model();
      ModelIs();
      SlotsBounded(s, code.k, code.n);
      NewBlocksIs(s, block);
      var newBlocks := if last != -1 then block - last else 1;
      if newBlocks > RING_SIZE { newBlocks := RING_SIZE; }
      last := block;
      ghost var t := s.(last := block);
      PushNone(t, code.k, block, newBlocks);
      ModelIs();
      for j := 0 to newBlocks
        invariant Shape() && Model() == PushUpTo(t, code.k, block, newBlocks, j)
        invariant alloc == |Queue()| && forall x :: 0 <= x < alloc ==> Queue()[x].toSend <= code.k
      {
        ModelIs();
        PushNext(t, code.k, block, newBlocks, j);
        BoundedPush(Model(), code.k, block + j + 1 - newBlocks);
        var _ := PushBlock(block + j + 1 - newBlocks);
        ModelIs();
      }
    }

    lemma ModelIs()
      requires Shape()
      ensures Model() == Source(hasSession, session, retired, Queue(), last, sends) && |Queue()| == alloc
    {}

    /** `get_block_ring_idx`: the queue position of a block, or -1 for one that is over. */
    method GetBlockPosition(block: nat) returns (pos: int)
      requires Shape() && code.k >= 1 && SourceOk(Model(), code.k, code.n)
      modifies this`front, this`alloc, this`last, this`sends, ring
      ensures Shape()
      ensures var s, i := old(Model()), Find(old(Queue()), block);
              if i < |s.queue| then pos == i && Model() == s
              else if block <= s.last then pos == -1 && Model() == s
              else pos == alloc - 1 && Model() == Open(s, code.k, block)
    {
      hide SourceOk, Open;
      var i := FindBlock(block);
      if i < alloc {
        return i;
      }
      if last != -1 && block <= last {
        return -1;
      }
      OpenBlock(block);
      pos := alloc - 1;
    }

    /** The front slot is sent from as far as its fragments reach. */
    method SendContiguous()
      requires Shape() && alloc > 0 && Queue()[0].toSend <= code.k
      modifies this`sends, ring
      ensures Shape()
      ensures var q := old(Queue())[0];
              var next := FirstMissing(q.frags, code.k, q.toSend);
              Model() == Emit(old(Model()), Prefix(session, q, code.k, q.toSend, next)).(queue := old(Queue())[0 := q.(toSend := next)])
    {
      FrontIs();
      hide Prefix, FirstMissing, At;
      ghost var log, q, queue := sends, ring[front], Queue();
      ghost var next := FirstMissing(q.frags, code.k, q.toSend);
      FrontSame(queue);
      PrefixStart(session, q, code.k, q.toSend);
      while ring[front].toSend < code.k && ring[front].toSend in ring[front].frags
        invariant Shape() && alloc == |queue| && q.toSend <= ring[front].toSend <= next
        invariant ring[front] == q.(toSend := ring[front].toSend) && Queue() == queue[0 := ring[front]]
        invariant sends == log + Prefix(session, q, code.k, q.toSend, ring[front].toSend)
        decreases code.k - ring[front].toSend
      {
        PrefixNext(session, q, code.k, q.toSend, ring[front].toSend, next);
        SendNext();
      }
    }

    lemma FrontIs()
      requires Shape() && alloc > 0
      ensures ring[front] == Queue()[0]
    {}

    /** The next fragment of the front slot. */
    method SendNext()
      requires Shape() && alloc > 0 && ring[front].toSend in ring[front].frags
      modifies this`sends, ring
      ensures Shape()
      ensures var p := old(ring[front]);
              && sends == old(sends) + [Send(session, p.block, p.toSend, Padded(p.frags[p.toSend]))]
              && ring[front] == p.(toSend := p.toSend + 1) && Queue() == old(Queue())[0 := ring[front]]
    {
      hide Padded;
      var p := ring[front];
      SendPacket(p, p.toSend, Padded(p.frags[p.toSend]));
      SetSlot(0, p.(toSend := p.toSend + 1));
      FrontIs();
    }

    /** Flushes and drops the front block. */
    method FlushFront()
      requires Shape() && alloc > 0 && Queue()[0].toSend <= code.k
      modifies this`front, this`alloc, this`sends
      ensures Shape()
      ensures var q := old(Queue())[0];
              Model() == Emit(old(Model()), Flush(session, q, code.k, q.toSend)).(queue := old(Queue())[1..])
    {
      hide Flush;
      assert ring[front] == Queue()[0];
      FlushSlot(ring[front]);
      PopFront();
    }

    /** Flushes and drops the blocks in front of position `count`. */
    method FlushOlder(count: nat)
      requires Shape() && count < alloc && forall i :: 0 <= i < alloc ==> Queue()[i].toSend <= code.k
      modifies this`front, this`alloc, this`sends
      ensures Shape()
      ensures Model() == Emit(old(Model()), FlushAll(session, old(Queue())[..count], code.k)).(queue := old(Queue())[count..])
    {
      hide FlushAll, Flush;
      ghost var s, log, queue := Model(), sends, Queue();
      ghost var all := FlushAll(session, queue[..count], code.k);
      FlushAllNone(session, queue, code.k, count);
      assert queue[0..] == queue && queue[0..count] == queue[..count];
      var nrm := count;
      while nrm > 0
        invariant Shape() && nrm <= count
        invariant Model() == s.(queue := queue[count - nrm..], sends := sends)
        invariant sends + FlushAll(s.session, queue[count - nrm..count], code.k) == log + all
      {
        ghost var i := count - nrm;
        FlushAllNext(session, queue, code.k, i, count, sends);
        assert Queue()[0] == queue[i] && queue[i..][1..] == queue[i + 1..];
        FlushFront();
        nrm := nrm - 1;
      }
    }

    /** Hands over the rest of the front block, which k fragments have reached, and drops it. */
    method FinishBlock()
      requires Shape() && Coding() && alloc > 0 && Sized(Queue()[0].frags)
      requires Complete(Queue()[0], code.k, code.n) && Queue()[0].toSend < code.k
      modifies this`front, this`alloc, this`sends, ring
      ensures Shape() && Coding()
      ensures var q := old(Queue())[0];
              Model() == Emit(old(Model()), SendRest(session, q, code.k, code.n, q.toSend)).(queue := old(Queue())[1..])
    {
      hide Decoded, Tables.Ready, FecCode.Valid, Buffer, SendRest, Padded, Complete, Recovered, Sized, At;
      FrontIs();
      var q := ring[front];
      var rec := RecoverMissing(q);
      SendRestOf(q, rec);
      PopFront();
    }

    /** The search for a missing fragment, and `apply_fec` if there is one. */
    method RecoverMissing(q: Slot) returns (rec: seq<seq<Byte>>)
      requires Coding() && Sized(q.frags) && Complete(q, code.k, code.n) && q.toSend < code.k
      ensures Coding()
      ensures forall x :: q.toSend <= x < code.k ==> x in q.frags || Recovered(rec, q.frags, code.k, code.n)
    {
      hide Decoded, Tables.Ready, FecCode.Valid, Sized, Recovered;
      var f := q.toSend;
      while f < code.k && f in q.frags
        invariant q.toSend <= f <= code.k && forall x :: q.toSend <= x < f ==> x in q.frags
      {
        f := f + 1;
      }
      rec := [];
      if f < code.k {
        rec := ApplyFec(tables, code, q.frags);
      }
    }

    /** Every fragment from the first unsent one on is handed over. */
    method SendRestOf(q: Slot, rec: seq<seq<Byte>>)
      requires Complete(q, code.k, code.n) && q.toSend <= code.k
      requires forall x :: q.toSend <= x < code.k ==> x in q.frags || Recovered(rec, q.frags, code.k, code.n)
      modifies this`sends
      ensures sends == old(sends) + SendRest(session, q, code.k, code.n, q.toSend)
    {
      hide *;
      ghost var all := sends + SendRest(session, q, code.k, code.n, q.toSend);
      var f := q.toSend;
      while f < code.k
        invariant q.toSend <= f <= code.k && sends + SendRest(session, q, code.k, code.n, f) == all
      {
        BufferFound(q, code.k, code.n, rec, f);
        SendRestNext(session, q, code.k, code.n, f, sends);
        SendPacket(q, f, if f in q.frags then Padded(q.frags[f]) else rec[f]);
        f := f + 1;
      }
      SendRestNone(session, q, code.k, code.n, sends);
    }

    /** The front slot q has a new fragment. */
    method AdvanceFront(ghost s: Source, ghost q: Slot)
      requires Shape() && Coding() && s.queue != [] && Model() == s.(queue := s.queue[0 := q])
      requires MarkedOk(q, code.k, code.n) && Sized(q.frags)
      modifies this`front, this`alloc, this`sends, ring
      ensures Shape() && Coding() && Model() == InsertFront(s, code.k, code.n, q)
    {
      hide Prefix, SendRest, FirstMissing, Tables.Ready, FecCode.Valid, Sized;
      var k := code.k;
      ghost var next := FirstMissing(q.frags, k, q.toSend);
      assert Queue()[0] == q;
      SendContiguous();
      ghost var q' := q.(toSend := next);
      assert Queue() == s.queue[0 := q'] && ring[front] == Queue()[0];
      if ring[front].toSend == k {
        PopFront();
      } else if ring[front].has == k {
        RestSame(session, q, q', k, code.n, next);
        FinishBlock();
      }
    }

    /** A slot q behind the front has a new fragment. */
    method AdvanceBehind(pos: nat, ghost s: Source, ghost q: Slot)
      requires Shape() && Coding() && 0 < pos < |s.queue| && Model() == s.(queue := s.queue[pos := q])
      requires MarkedOk(q, code.k, code.n) && Sized(q.frags) && forall i :: 0 <= i < |s.queue| ==> s.queue[i].toSend <= code.k
      modifies this`front, this`alloc, this`sends, ring
      ensures Shape() && Coding() && Model() == InsertBehind(s, code.k, code.n, pos, q)
    {
      hide SendRest, FlushAll, Tables.Ready, FecCode.Valid, Sized;
      assert ring[At(front, pos, RING_SIZE)] == Queue()[pos] == q;
      if ring[At(front, pos, RING_SIZE)].has == code.k {
        assert s.queue[pos := q][..pos] == s.queue[..pos];
        FlushOlder(pos);
        assert Queue()[0] == q;
        FinishBlock();
      }
    }

    /** A fragment for the slot at a queue position. */
    method AddFragment(pos: nat, frag: nat, content: seq<Byte>)
      requires Valid() && pos < alloc && frag < code.n && PACKET_HEADER <= |content| <= MAX_FEC_PAYLOAD
      modifies this`front, this`alloc, this`sends, ring
      ensures Shape() && Coding() && Model() == Insert(old(Model()), code.k, code.n, pos, frag, content)
    {
      hide Tables.Ready, FecCode.Valid, InsertFront, InsertBehind;
      ghost var s := Model();
      var p := ring[At(front, pos, RING_SIZE)];
      assert p == s.queue[pos];
      if frag in p.frags {
        return;
      }
      MarkOk(p, code.k, code.n, frag, content);
      var q := Marked(p, frag, content);
      SetSlot(pos, q);
      if pos == 0 {
        AdvanceFront(s, q);
      } else {
        AdvanceBehind(pos, s, q);
      }
    }

    /** The data part of `process_packet`, for a packet of this source. */
    method ProcessData(id: nat, block: nat, frag: nat, content: seq<Byte>)
      requires Valid() && PACKET_HEADER <= |content| <= MAX_FEC_PAYLOAD
      modifies this`front, this`alloc, this`last, this`hasSession, this`session, this`retired, this`sends, ring
      ensures Valid() && Model() == Receive(old(Model()), code.k, code.n, id, block, frag, content)
    {
      hide Tables.Ready, FecCode.Valid, Insert, Open, SourceOk, SlotOk, AllSized;
      ghost var s := Model();
      ReceiveStep(s, code.k, code.n, id, block, frag, content);
      ReceiveSized(s, code.k, code.n, id, block, frag, content);
      if frag >= code.n {
        return;
      }
      var ok := AcceptDataSession(id);
      if !ok {
        return;
      }
      ghost var t := Model();
      EnterReady(s, code.k, code.n, id);
      OpenReady(t, code.k, code.n, block);
      var pos := GetBlockPosition(block);
      if pos < 0 {
        return;
      }
      AddFragment(pos, frag, content);
    }
  }

  /** Where a slot has been sent up to does not matter for what is left of it. */
  lemma {:induction false} RestSame(session: nat, q: Slot, q': Slot, k: nat, n: nat, f: nat)
    requires Complete(q, k, n) && q' == q.(toSend := q'.toSend)
    ensures SendRest(session, q, k, n, f) == SendRest(session, q', k, n, f)
    decreases k - f
  {
    hide Decoded;
    if f < k { RestSame(session, q, q', k, n, f + 1); }
  }

  /** The ring never holds a fragment that is too short or too long. */
  lemma ReceiveSized(s: Source, k: nat, n: nat, session: nat, block: nat, frag: nat, content: seq<Byte>)
    requires SourceOk(s, k, n) && AllSized(s.queue) && PACKET_HEADER <= |content| <= MAX_FEC_PAYLOAD
    ensures AllSized(Receive(s, k, n, session, block, frag, content).queue)
  {
    hide Insert, Open, AllSized;
    if frag < n && Acceptable(s, session) {
      var t := EnterSession(s, session);
      EnterSized(s, session);
      var i := Find(t.queue, block);
      if i < |t.queue| {
        InsertSized(t, k, n, i, frag, content);
      } else if block > t.last {
        OpenOk(t, k, n, block);
        OpenSized(t, k, n, block);
        InsertSized(Open(t, k, block), k, n, |Open(t, k, block).queue| - 1, frag, content);
      }
    }
  }

  lemma EnterReady(s: Source, k: nat, n: nat, session: nat)
    requires SourceOk(s, k, n) && AllSized(s.queue)
    ensures SourceOk(EnterSession(s, session), k, n) && AllSized(EnterSession(s, session).queue) && k >= 1
  {}

  lemma OpenReady(s: Source, k: nat, n: nat, block: nat)
    requires SourceOk(s, k, n) && AllSized(s.queue)
    ensures s.last >= -1
    ensures block > s.last ==> var r := Open(s, k, block); SourceOk(r, k, n) && AllSized(r.queue) && |r.queue| > 0
  {
    if block > s.last {
      OpenOk(s, k, n, block);
      OpenSized(s, k, n, block);
    }
  }

  lemma EnterSized(s: Source, session: nat)
    requires AllSized(s.queue)
    ensures AllSized(EnterSession(s, session).queue)
  {}

  lemma OpenSized(s: Source, k: nat, n: nat, block: nat)
    requires SourceOk(s, k, n) && AllSized(s.queue) && block > s.last
    ensures AllSized(Open(s, k, block).queue)
  {
    var c := NewBlocks(s, block);
    var all := s.queue + NewSlots(block + 1 - c, c);
    PushUpToYoungest(s.(last := block), k, block, c, c);
    hide PushUpTo;
    forall i | 0 <= i < |all|
      ensures Sized(all[i].frags)
    {
      if i < |s.queue| { assert all[i] == s.queue[i]; } else { assert all[i] == NewSlots(block + 1 - c, c)[i - |s.queue|]; }
    }
  }

  lemma InsertSized(s: Source, k: nat, n: nat, i: nat, frag: nat, content: seq<Byte>)
    requires SourceOk(s, k, n) && AllSized(s.queue) && i < |s.queue| && frag < n && PACKET_HEADER <= |content| <= MAX_FEC_PAYLOAD
    ensures AllSized(Insert(s, k, n, i, frag, content).queue)
  {
    if frag !in s.queue[i].frags {
      MarkOk(s.queue[i], k, n, frag, content);
      var q := Marked(s.queue[i], frag, content);
      hide Prefix, SendRest, FlushAll, FirstMissing;
      assert Sized(q.frags);
    }
  }

  lemma FlushAllNone(session: nat, q: seq<Slot>, k: nat, count: nat)
    requires count <= |q|
    ensures FlushAll(session, q[count..count], k) == []
    ensures forall log: seq<Send> :: log + FlushAll(session, q[count..count], k) == log
  {
    assert forall log: seq<Send> :: log + [] == log;
  }

  /** The flush of several blocks, one block at a time. */
  lemma FlushAllNext(session: nat, q: seq<Slot>, k: nat, i: nat, count: nat, log: seq<Send>)
    requires i < count <= |q|
    ensures log + FlushAll(session, q[i..count], k) == log + Flush(session, q[i], k, q[i].toSend) + FlushAll(session, q[i + 1..count], k)
  {
    assert q[i..count][1..] == q[i + 1..count];
  }

  /** The buffers that are there after `apply_fec`, or when it was not needed. */
  lemma BufferFound(q: Slot, k: nat, n: nat, rec: seq<seq<Byte>>, f: nat)
    requires Complete(q, k, n) && f < k && (f in q.frags || Recovered(rec, q.frags, k, n))
    ensures f in q.frags || f < |rec|
    ensures Buffer(q, k, n, f) == if f in q.frags then Padded(q.frags[f]) else rec[f]
  {}

  lemma SendRestNext(session: nat, q: Slot, k: nat, n: nat, f: nat, log: seq<Send>)
    requires Complete(q, k, n) && f < k
    ensures log + SendRest(session, q, k, n, f) == log + [Send(session, q.block, f, Buffer(q, k, n, f))] + SendRest(session, q, k, n, f + 1)
  {}

  lemma SendRestNone(session: nat, q: Slot, k: nat, n: nat, log: seq<Send>)
    requires Complete(q, k, n)
    ensures log + SendRest(session, q, k, n, k) == log
  {}

  lemma FrontSame(queue: seq<Slot>)
    requires queue != []
    ensures queue[0 := queue[0]] == queue
  {}

  lemma PrefixStart(session: nat, q: Slot, k: nat, f: nat)
    ensures Prefix(session, q, k, f, f) == []
  {}

  /** The prefix grows at its end, and never beyond the first missing fragment. */
  lemma {:induction false} PrefixNext(session: nat, q: Slot, k: nat, f: nat, i: nat, next: nat)
    requires f <= i < k && i in q.frags && f <= k && next == FirstMissing(q.frags, k, f) && i <= next
    ensures i < next
    ensures Prefix(session, q, k, f, i + 1) == Prefix(session, q, k, f, i) + [Send(session, q.block, i, Padded(q.frags[i]))]
    decreases i - f
  {
    if f < i {
      PrefixNext(session, q, k, f + 1, i, next);
    }
  }

  ghost predicate AllSized(q: seq<Slot>) {
    forall i :: 0 <= i < |q| ==> Sized(q[i].frags)
  }

  lemma SlotsBounded(s: Source, k: nat, n: nat)
    requires SourceOk(s, k, n)
    ensures s.last >= -1 && forall i :: 0 <= i < |s.queue| ==> s.queue[i].toSend <= k
  {}

  /** How many pushes, and what they amount to. */
  lemma NewBlocksIs(s: Source, block: nat)
    requires block > s.last >= -1
    ensures var c := NewBlocks(s, block);
            && c == (if s.last == -1 then 1 else if block - s.last < RING_SIZE then block - s.last else RING_SIZE)
            && c <= block + 1
    ensures forall k :: Open(s, k, block) == PushUpTo(s.(last := block), k, block, NewBlocks(s, block), NewBlocks(s, block))
  {
    hide PushUpTo;
  }

  lemma PushNone(s: Source, k: nat, block: nat, count: nat)
    requires count <= block + 1
    ensures PushUpTo(s, k, block, count, 0) == s
  {}

  lemma PushNext(s: Source, k: nat, block: nat, count: nat, i: nat)
    requires i < count <= block + 1
    ensures PushUpTo(s, k, block, count, i + 1) == Push(PushUpTo(s, k, block, count, i), k, block + i + 1 - count)
  {}

  lemma BoundedPush(s: Source, k: nat, block: nat)
    requires forall x :: 0 <= x < |s.queue| ==> s.queue[x].toSend <= k
    ensures forall x :: 0 <= x < |Push(s, k, block).queue| ==> Push(s, k, block).queue[x].toSend <= k
  {
    PushShape(s, k, block);
    hide Push;
  }

  lemma {:induction false} FindNone(q: seq<Slot>, block: nat)
    requires forall x :: 0 <= x < |q| ==> q[x].block != block
    ensures Find(q, block) == |q|
  {
    if q != [] { FindNone(q[1..], block); }
  }

  lemma FindFirst(q: seq<Slot>, block: nat, i: nat)
    requires i < |q| && q[i].block == block && forall x :: 0 <= x < i ==> q[x].block != block
    ensures Find(q, block) == i
  {}
}
