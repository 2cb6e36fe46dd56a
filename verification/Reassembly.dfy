/** The per-source reassembly of src/rx.cpp on values: the allocated ring slots as a queue,
    front first, and every call of `send_packet` as an entry of a log. */
module Reassembly {
  import opened Bytes
  import opened GaloisField
  import opened LinearAlgebra
  import opened GaussJordan
  import opened FecMatrix
  import opened FecCodec
  import opened WireFormat

  const RING_SIZE := 40   // RX_RING_SIZE

  /** A ring item.  `frags` holds the marked fragments, as received; `has` is the counter the code keeps. */
  datatype Slot = Slot(block: nat, toSend: nat, has: nat, frags: map<nat, seq<Byte>>)

  /** One call of `send_packet`: the fragment and what its buffer holds. */
  datatype Send = Send(session: nat, block: nat, frag: nat, buffer: seq<Byte>)

  /** `last` is -1 while no block has been seen. */
  datatype Source = Source(hasSession: bool, session: nat, retired: set<nat>,
                           queue: seq<Slot>, last: int, sends: seq<Send>)

  const FRESH_SOURCE := Source(false, 0, {}, [], -1, [])

  ghost predicate CodeParameters(k: nat, n: nat) { 1 <= k <= n <= 255 }

  // ---------- buffers ----------

  /** A received fragment in its cleared buffer. */
  function Padded(content: seq<Byte>): (b: seq<Byte>)
    ensures |b| == if |content| < MAX_FEC_PAYLOAD then MAX_FEC_PAYLOAD else |content|
  {
    if |content| < MAX_FEC_PAYLOAD then content + seq(MAX_FEC_PAYLOAD - |content|, i => 0) else content
  }

  /** The next marked fragment from j on, or n. */
  function NextPresent(frags: map<nat, seq<Byte>>, n: nat, j: nat): (r: nat)
    ensures j <= r
    decreases n - j
  {
    if j < n && j !in frags then NextPresent(frags, n, j + 1) else j
  }

  /** The block numbers that `apply_fec` hands to the decoder for slots i and up. */
  function ChosenFrom(frags: map<nat, seq<Byte>>, k: nat, n: nat, i: nat, j: nat): (c: seq<nat>)
    ensures |c| == if i < k then k - i else 0
    decreases k - i
  {
    if i >= k then [] else
    if i in frags then [i] + ChosenFrom(frags, k, n, i + 1, j)
    else var p := NextPresent(frags, n, j); [p] + ChosenFrom(frags, k, n, i + 1, p + 1)
  }

  function Chosen(frags: map<nat, seq<Byte>>, k: nat, n: nat): (c: seq<nat>)
    ensures |c| == k
  {
    ChosenFrom(frags, k, n, 0, k)
  }

  ghost function MissingSet(frags: map<nat, seq<Byte>>, k: nat, i: nat): set<nat> {
    set x: nat | i <= x < k && x !in frags
  }

  ghost function SecondarySet(frags: map<nat, seq<Byte>>, j: nat): set<nat> {
    set x: nat | x in frags && j <= x
  }

  lemma {:induction false} NextPresentFound(frags: map<nat, seq<Byte>>, n: nat, j: nat)
    requires (forall x :: x in frags ==> x < n) && SecondarySet(frags, j) != {}
    ensures NextPresent(frags, n, j) in frags
    ensures SecondarySet(frags, NextPresent(frags, n, j) + 1) == SecondarySet(frags, j) - {NextPresent(frags, n, j)}
    decreases n - j
  {
    var x :| x in SecondarySet(frags, j);
    if j !in frags {
      assert SecondarySet(frags, j + 1) == SecondarySet(frags, j);
      NextPresentFound(frags, n, j + 1);
    }
  }

  /** A choice for slots i and up that takes primaries in place and secondaries from j on, each once. */
  ghost predicate ChoiceOk(frags: map<nat, seq<Byte>>, k: nat, i: nat, j: nat, c: seq<nat>) {
    && (forall x :: 0 <= x < |c| ==> c[x] in frags)
    && (forall x :: 0 <= x < |c| ==> if c[x] < k then c[x] == i + x else j <= c[x])
    && (forall x, y :: 0 <= x < y < |c| ==> c[x] != c[y])
  }

  lemma ChoicePrepend(frags: map<nat, seq<Byte>>, k: nat, i: nat, j: nat, j': nat, head: nat, rest: seq<nat>)
    requires k <= j <= j' && ChoiceOk(frags, k, i + 1, j', rest) && head in frags
    requires if head < k then head == i else j <= head < j'
    ensures ChoiceOk(frags, k, i, j, [head] + rest)
  {
    var c := [head] + rest;
    forall x | 1 <= x < |c|
      ensures c[x] == rest[x - 1] && c[x] != head && c[x] in frags && if c[x] < k then c[x] == i + x else j <= c[x]
    {
    }
  }

  /** The choice never runs out of secondary fragments, and picks each fragment once. */
  lemma {:induction false} ChosenFromOk(frags: map<nat, seq<Byte>>, k: nat, n: nat, i: nat, j: nat)
    requires i <= k <= j && (forall x :: x in frags ==> x < n)
    requires |MissingSet(frags, k, i)| <= |SecondarySet(frags, j)|
    ensures ChoiceOk(frags, k, i, j, ChosenFrom(frags, k, n, i, j))
    decreases k - i
  {
    if i < k {
      hide ChoiceOk;
      if i in frags {
        assert MissingSet(frags, k, i + 1) == MissingSet(frags, k, i);
        ChosenFromOk(frags, k, n, i + 1, j);
        ChoicePrepend(frags, k, i, j, j, i, ChosenFrom(frags, k, n, i + 1, j));
      } else {
        assert MissingSet(frags, k, i + 1) == MissingSet(frags, k, i) - {i};
        assert i in MissingSet(frags, k, i);
        NextPresentFound(frags, n, j);
        var p := NextPresent(frags, n, j);
        ChosenFromOk(frags, k, n, i + 1, p + 1);
        ChoicePrepend(frags, k, i, j, p + 1, p, ChosenFrom(frags, k, n, i + 1, p + 1));
      }
    }
  }

  lemma ChosenOk(frags: map<nat, seq<Byte>>, k: nat, n: nat)
    requires CodeParameters(k, n) && (forall x :: x in frags ==> x < n) && |frags| == k
    ensures var c := Chosen(frags, k, n);
            DistinctBlocks(c, n) && Settled(c, k) && forall i :: 0 <= i < k ==> c[i] in frags
    ensures forall f :: 0 <= f < k && f in frags ==> Chosen(frags, k, n)[f] == f
  {
    EnoughSecondary(frags, k);
    ChosenFromOk(frags, k, n, 0, k);
    forall f | 0 <= f < k && f in frags
      ensures Chosen(frags, k, n)[f] == f
    {
      ChosenAt(frags, k, n, 0, k, f);
    }
  }

  lemma {:induction false} ChosenAt(frags: map<nat, seq<Byte>>, k: nat, n: nat, i: nat, j: nat, f: nat)
    requires i <= f < k && f in frags
    ensures ChosenFrom(frags, k, n, i, j)[f - i] == f
    decreases k - i
  {
    if i < f {
      if i in frags { ChosenAt(frags, k, n, i + 1, j, f); }
      else { ChosenAt(frags, k, n, i + 1, NextPresent(frags, n, j) + 1, f); }
    }
  }

  lemma EnoughSecondary(frags: map<nat, seq<Byte>>, k: nat)
    requires |frags| == k
    ensures |MissingSet(frags, k, 0)| <= |SecondarySet(frags, k)|
  {
    var primary := set x: nat | x in frags && x < k;
    assert primary + SecondarySet(frags, k) == frags.Keys;
    assert primary + MissingSet(frags, k, 0) == Below(k) by { 
      forall x: nat ensures x in primary + MissingSet(frags, k, 0) <==> x in Below(k) {} }
    BelowCount(k);
  }

  /** The largest of the chosen secondary fragments. */
  function MaxLength(frags: map<nat, seq<Byte>>, k: nat, chosen: seq<nat>, i: nat): (m: nat)
    requires i <= |chosen| && forall x :: 0 <= x < |chosen| ==> chosen[x] in frags
    ensures forall x :: 0 <= x < i && chosen[x] >= k ==> |frags[chosen[x]]| <= m
    ensures m == 0 || exists x :: 0 <= x < i && chosen[x] >= k && m == |frags[chosen[x]]|
  {
    if i == 0 then 0
    else
      var m := MaxLength(frags, k, chosen, i - 1);
      if chosen[i - 1] >= k && |frags[chosen[i - 1]]| > m then |frags[chosen[i - 1]]| else m
  }

  /** Byte b of the chosen fragments in their buffers. */
  function ChosenColumn(frags: map<nat, seq<Byte>>, chosen: seq<nat>, b: nat): (y: Vec)
    requires b < MAX_FEC_PAYLOAD && forall i :: 0 <= i < |chosen| ==> chosen[i] in frags
    ensures |y| == |chosen| && forall i :: 0 <= i < |chosen| ==> y[i] == Padded(frags[chosen[i]])[b]
  {
    seq(|chosen|, i requires 0 <= i < |chosen| => Padded(frags[chosen[i]])[b])
  }

  /** The data column whose codeword has y at the chosen blocks. */
  ghost function Solved(k: nat, n: nat, chosen: seq<nat>, y: Vec): (d: Vec)
    requires CodeParameters(k, n) && |chosen| == |y| == k && DistinctBlocks(chosen, n)
    ensures |d| == k && Codeword(k, chosen, y, d)
  {
    SomeSolution(k, n, chosen, y);
    var d: Vec :| |d| == k && Codeword(k, chosen, y, d);
    d
  }

  lemma SomeSolution(k: nat, n: nat, chosen: seq<nat>, y: Vec)
    requires CodeParameters(k, n) && |chosen| == |y| == k && DistinctBlocks(chosen, n)
    ensures exists d: Vec :: |d| == k && Codeword(k, chosen, y, d)
  {
    hide Codeword, Maps, Nonsingular;
    AnyRowsNonsingular(k, n, chosen);
    var x := Solvable(SelectedRows(k, chosen), k, y);
    SelectedCodeword(k, chosen, y, x);
  }

  lemma SelectedCodeword(k: nat, chosen: seq<nat>, y: Vec, d: Vec)
    requires k >= 1 && |chosen| == |y| == |d| == k
    ensures Codeword(k, chosen, y, d) <==> Maps(SelectedRows(k, chosen), d, y)
  {
    hide Dot, GeneratorRow;
    var m := SelectedRows(k, chosen);
    assert forall i :: 0 <= i < k ==> m[i] == GeneratorRow(k, chosen[i]);
  }

  /** There is only one such column. */
  lemma SolvedUnique(k: nat, n: nat, chosen: seq<nat>, y: Vec, d: Vec)
    requires CodeParameters(k, n) && |chosen| == |y| == |d| == k && DistinctBlocks(chosen, n)
    requires Codeword(k, chosen, y, d)
    ensures Solved(k, n, chosen, y) == d
  {
    hide Dot, GeneratorRow, Codeword, Maps, Nonsingular;
    AnyRowsNonsingular(k, n, chosen);
    SelectedCodeword(k, chosen, y, d);
    SelectedCodeword(k, chosen, y, Solved(k, n, chosen, y));
    NonsingularUnique(SelectedRows(k, chosen), k, d, Solved(k, n, chosen, y), y);
  }

  /** How many bytes of a recovered fragment are ever looked at. */
  function DecodeLength(frags: map<nat, seq<Byte>>, k: nat, chosen: seq<nat>): (len: nat)
    requires forall x :: 0 <= x < |chosen| ==> chosen[x] in frags
    ensures len <= MAX_FEC_PAYLOAD
  {
    var sz := RoundUpSimd(MaxLength(frags, k, chosen, |chosen|));
    if sz < MAX_FEC_PAYLOAD then sz else MAX_FEC_PAYLOAD
  }

  /** Primary fragment f as `apply_fec` reconstructs it. */
  ghost function Decoded(frags: map<nat, seq<Byte>>, k: nat, n: nat, f: nat): (b: seq<Byte>)
    requires CodeParameters(k, n) && (forall x :: x in frags ==> x < n) && |frags| == k && f < k
    ensures |b| == (ChosenOk(frags, k, n); DecodeLength(frags, k, Chosen(frags, k, n)))
  {
    ChosenOk(frags, k, n);
    var c := Chosen(frags, k, n);
    seq(DecodeLength(frags, k, c), b requires 0 <= b < DecodeLength(frags, k, c) => Solved(k, n, c, ChosenColumn(frags, c, b))[f])
  }

  // ---------- sending ----------

  /** The buffer of primary fragment f when the block is complete. */
  ghost function Buffer(slot: Slot, k: nat, n: nat, f: nat): seq<Byte>
    requires Complete(slot, k, n) && f < k
  {
    if f in slot.frags then Padded(slot.frags[f]) else Decoded(slot.frags, k, n, f)
  }

  /** k distinct fragments have arrived. */
  ghost predicate Complete(slot: Slot, k: nat, n: nat) {
    CodeParameters(k, n) && (forall x :: x in slot.frags ==> x < n) && |slot.frags| == k
  }

  /** `send_packet` for f .. k of a complete block. */
  ghost function SendRest(session: nat, slot: Slot, k: nat, n: nat, f: nat): (r: seq<Send>)
    requires Complete(slot, k, n)
    ensures |r| == if f < k then k - f else 0
    ensures forall i :: 0 <= i < |r| ==> r[i].session == session && r[i].block == slot.block && r[i].frag == f + i
    decreases k - f
  {
    if f >= k then [] else [Send(session, slot.block, f, Buffer(slot, k, n, f))] + SendRest(session, slot, k, n, f + 1)
  }

  /** `send_packet` for the marked fragments among f .. k. */
  function Flush(session: nat, slot: Slot, k: nat, f: nat): seq<Send>
    decreases k - f
  {
    if f >= k then []
    else (if f in slot.frags then [Send(session, slot.block, f, Padded(slot.frags[f]))] else [])
         + Flush(session, slot, k, f + 1)
  }

  /** The flush of several blocks, front first. */
  function FlushAll(session: nat, slots: seq<Slot>, k: nat): seq<Send> {
    if slots == [] then [] else Flush(session, slots[0], k, slots[0].toSend) + FlushAll(session, slots[1..], k)
  }

  /** The first fragment from f on that is not marked, or k. */
  function FirstMissing(frags: map<nat, seq<Byte>>, k: nat, f: nat): (r: nat)
    requires f <= k
    ensures f <= r <= k && (forall x :: f <= x < r ==> x in frags) && (r < k ==> r !in frags)
    decreases k - f
  {
    if f < k && f in frags then FirstMissing(frags, k, f + 1) else f
  }

  // ---------- the ring ----------

  function Emit(s: Source, more: seq<Send>): Source { s.(sends := s.sends + more) }

  /** `rx_ring_push` followed by the initialisation of the slot. */
  function Push(s: Source, k: nat, block: nat): Source {
    var slot := Slot(block, 0, 0, map[]);
    if |s.queue| < RING_SIZE then s.(queue := s.queue + [slot])
    else Emit(s, Flush(s.session, s.queue[0], k, s.queue[0].toSend)).(queue := s.queue[1..] + [slot])
  }

  /** The first i of `count` pushes for the blocks up to `block`. */
  function PushUpTo(s: Source, k: nat, block: nat, count: nat, i: nat): Source
    requires i <= count <= block + 1
  {
    if i == 0 then s else Push(PushUpTo(s, k, block, count, i - 1), k, block + i - count)
  }

  /** The number of blocks that `get_block_ring_idx` adds. */
  function NewBlocks(s: Source, block: nat): (c: nat)
    requires block > s.last >= -1
    ensures 1 <= c <= RING_SIZE && c <= block + 1
  {
    if s.last == -1 then 1 else if block - s.last < RING_SIZE then block - s.last else RING_SIZE
  }

  /** The position of a block in the queue, or its length. */
  function Find(queue: seq<Slot>, block: nat): (i: nat)
    ensures i <= |queue| && (i < |queue| ==> queue[i].block == block)
    ensures forall x :: 0 <= x < i ==> queue[x].block != block
  {
    if queue == [] then 0 else if queue[0].block == block then 0 else 1 + Find(queue[1..], block)
  }

  /** `get_block_ring_idx` for a block that is not in the ring and is newer than all seen. */
  function Open(s: Source, k: nat, block: nat): Source
    requires block > s.last >= -1
  {
    var c := NewBlocks(s, block);
    PushUpTo(s.(last := block), k, block, c, c)
  }

  /** A slot with one more fragment. */
  function Marked(p: Slot, frag: nat, content: seq<Byte>): Slot {
    p.(frags := p.frags[frag := content], has := p.has + 1)
  }

  /** A slot that just got a fragment, possibly its k-th. */
  ghost predicate MarkedOk(q: Slot, k: nat, n: nat) {
    && CodeParameters(k, n)
    && (forall x :: x in q.frags ==> x < n)
    && q.has == |q.frags| <= k
    && q.toSend < k
    && (forall x :: 0 <= x < q.toSend ==> x in q.frags)
  }

  lemma MarkOk(p: Slot, k: nat, n: nat, frag: nat, content: seq<Byte>)
    requires CodeParameters(k, n) && SlotOk(p, k, n) && frag < n && frag !in p.frags
    ensures MarkedOk(Marked(p, frag, content), k, n)
  {
    assert Marked(p, frag, content).frags.Keys == p.frags.Keys + {frag};
  }

  /** The front slot got a fragment: send what is contiguous, and finish the block if k have arrived. */
  ghost function InsertFront(s: Source, k: nat, n: nat, q: Slot): Source
    requires s.queue != [] && MarkedOk(q, k, n)
  {
    var next := FirstMissing(q.frags, k, q.toSend);
    var sent := Prefix(s.session, q, k, q.toSend, next);
    if next == k then Emit(s, sent).(queue := s.queue[1..])
    else if q.has == k then Emit(s, sent + SendRest(s.session, q, k, n, next)).(queue := s.queue[1..])
    else Emit(s, sent).(queue := s.queue[0 := q.(toSend := next)])
  }

  /** A slot behind the front got a fragment: once k have arrived, flush the older blocks and finish this one. */
  ghost function InsertBehind(s: Source, k: nat, n: nat, i: nat, q: Slot): Source
    requires i < |s.queue| && MarkedOk(q, k, n)
  {
    if q.has == k
    then Emit(s, FlushAll(s.session, s.queue[..i], k) + SendRest(s.session, q, k, n, q.toSend)).(queue := s.queue[i + 1..])
    else s.(queue := s.queue[i := q])
  }

  /** The rest of `process_packet` once the slot is known. */
  ghost function Insert(s: Source, k: nat, n: nat, i: nat, frag: nat, content: seq<Byte>): Source
    requires CodeParameters(k, n) && i < |s.queue| && frag < n && SlotOk(s.queue[i], k, n)
  {
    if frag in s.queue[i].frags then s
    else
      MarkOk(s.queue[i], k, n, frag, content);
      var q := Marked(s.queue[i], frag, content);
      if i == 0 then InsertFront(s, k, n, q) else InsertBehind(s, k, n, i, q)
  }

  /** `send_packet` for the marked fragments f .. hi. */
  function Prefix(session: nat, slot: Slot, k: nat, f: nat, hi: nat): (r: seq<Send>)
    requires forall x :: f <= x < hi ==> x in slot.frags
    ensures |r| == if f < hi then hi - f else 0
    ensures forall i :: 0 <= i < |r| ==> r[i].session == session && r[i].block == slot.block && r[i].frag == f + i
    decreases hi - f
  {
    if f >= hi then [] else [Send(session, slot.block, f, Padded(slot.frags[f]))] + Prefix(session, slot, k, f + 1, hi)
  }

  // ---------- sessions ----------

  /** `reset_source_reassembly` */
  function Reset(s: Source): Source { s.(queue := [], last := -1) }

  /** Is the packet's session acceptable?  (`accept_data_session`) */
  predicate Acceptable(s: Source, session: nat) {
    session != 0 && (s.hasSession && s.session != session ==> session !in s.retired)
  }

  function EnterSession(s: Source, session: nat): Source {
    var s1 := if s.hasSession && s.session != session
              then Reset(s.(retired := s.retired + {s.session})) else s;
    s1.(hasSession := true, session := session)
  }

  /** One data packet of this source: `process_packet` from the fragment check on. */
  ghost function Receive(s: Source, k: nat, n: nat, session: nat, block: nat, frag: nat, content: seq<Byte>): Source
    requires SourceOk(s, k, n)
  {
    if frag >= n || !Acceptable(s, session) then s
    else
      var s1 := EnterSession(s, session);
      var i := Find(s1.queue, block);
      if i < |s1.queue| then Insert(s1, k, n, i, frag, content)
      else if block <= s1.last then s1
      else
        var s2 := Open(s1, k, block);
        OpenOk(s1, k, n, block);
        Insert(s2, k, n, |s2.queue| - 1, frag, content)
  }

  // ---------- the ring invariant ----------

  ghost predicate SlotOk(slot: Slot, k: nat, n: nat) {
    && (forall x :: x in slot.frags ==> x < n)
    && slot.has == |slot.frags| < k
    && slot.toSend < k
    && (forall x :: 0 <= x < slot.toSend ==> x in slot.frags)
  }

  /** Slots hold consecutive blocks ending at `last`; only the front one has been sent from. */
  ghost predicate SourceOk(s: Source, k: nat, n: nat) {
    && CodeParameters(k, n)
    && |s.queue| <= RING_SIZE && s.last >= -1
    && (forall i :: 0 <= i < |s.queue| ==> s.queue[i].block == s.last - |s.queue| + 1 + i)
    && (forall i :: 0 <= i < |s.queue| ==> SlotOk(s.queue[i], k, n))
    && (forall i :: 1 <= i < |s.queue| ==> s.queue[i].toSend == 0)
  }

  /** Fresh slots for `count` consecutive blocks. */
  function NewSlots(first: nat, count: nat): (q: seq<Slot>)
    ensures |q| == count && forall x :: 0 <= x < count ==> q[x] == Slot(first + x, 0, 0, map[])
  {
    seq(count, x requires 0 <= x => Slot(first + x, 0, 0, map[]))
  }

  /** The youngest slots that fit in the ring. */
  function Youngest(q: seq<Slot>): (r: seq<Slot>)
    ensures |r| == if |q| <= RING_SIZE then |q| else RING_SIZE
    ensures forall x :: 0 <= x < |r| ==> r[x] == q[|q| - |r| + x]
  {
    if |q| <= RING_SIZE then q else q[|q| - RING_SIZE..]
  }

  lemma YoungestPush(q: seq<Slot>, slot: Slot)
    ensures var y := Youngest(q);
            Youngest(q + [slot]) == if |y| < RING_SIZE then y + [slot] else y[1..] + [slot]
  {
  }

  /** Pushing touches the queue and the log only. */
  lemma PushShape(s: Source, k: nat, block: nat)
    ensures var r, slot := Push(s, k, block), Slot(block, 0, 0, map[]);
            r == s.(queue := r.queue, sends := r.sends)
            && r.queue == if |s.queue| < RING_SIZE then s.queue + [slot] else s.queue[1..] + [slot]
  {}

  lemma NewSlotsNext(first: nat, i: nat)
    ensures NewSlots(first, i + 1) == NewSlots(first, i) + [Slot(first + i, 0, 0, map[])]
  {}

  /** However far the jump, pushing keeps the youngest slots and touches nothing else but the log. */
  lemma {:induction false} PushUpToYoungest(s: Source, k: nat, block: nat, count: nat, i: nat)
    requires i <= count <= block + 1 && |s.queue| <= RING_SIZE
    ensures var r := PushUpTo(s, k, block, count, i);
            r == s.(queue := Youngest(s.queue + NewSlots(block + 1 - count, i)), sends := r.sends)
  {
    var first := block + 1 - count;
    if i == 0 {
      assert s.queue + NewSlots(first, 0) == s.queue;
    } else {
      var r := PushUpTo(s, k, block, count, i - 1);
      assert PushUpTo(s, k, block, count, i) == Push(r, k, first + (i - 1));
      PushUpToYoungest(s, k, block, count, i - 1);
      hide PushUpTo, Push, NewSlots, Youngest;
      PushShape(r, k, first + (i - 1));
      NewSlotsNext(first, i - 1);
      YoungestPush(s.queue + NewSlots(first, i - 1), Slot(first + (i - 1), 0, 0, map[]));
      assert s.queue + NewSlots(first, i) == s.queue + NewSlots(first, i - 1) + [Slot(first + (i - 1), 0, 0, map[])];
    }
  }

  /** The ring holds no more blocks than have been seen. */
  lemma QueueFits(s: Source, k: nat, n: nat)
    requires SourceOk(s, k, n)
    ensures |s.queue| <= s.last + 1
  {
    if s.queue != [] { assert s.queue[0].block == s.last - |s.queue| + 1; }
  }

  /** A jump of any size leaves a valid ring that ends with a fresh slot for the new block. */
  lemma OpenOk(s: Source, k: nat, n: nat, block: nat)
    requires SourceOk(s, k, n) && block > s.last
    ensures var r := Open(s, k, block);
            && SourceOk(r, k, n)
            && |r.queue| > 0 && r.queue[|r.queue| - 1] == Slot(block, 0, 0, map[])
            && r == s.(last := block, queue := r.queue, sends := r.sends)
  {
    var c := NewBlocks(s, block);
    PushUpToYoungest(s.(last := block), k, block, c, c);
    var r, all := Open(s, k, block), s.queue + NewSlots(block + 1 - c, c);
    assert r == s.(last := block, queue := r.queue, sends := r.sends) && r.queue == Youngest(all);
    hide Open, PushUpTo, Youngest;
    QueueFits(s, k, n);
    forall x | 0 <= x < |r.queue|
      ensures r.queue[x].block == block - |r.queue| + 1 + x
      ensures SlotOk(r.queue[x], k, n) && (x > 0 ==> r.queue[x].toSend == 0)
    {
      var y := |all| - |r.queue| + x;
      assert r.queue[x] == all[y];
      if y < |s.queue| { assert all[y] == s.queue[y]; } else { assert all[y] == NewSlots(block + 1 - c, c)[y - |s.queue|]; }
    }
  }
}
