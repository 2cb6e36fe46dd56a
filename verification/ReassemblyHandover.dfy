/** What each arrival of the reassembly of src/rx.cpp hands to output and what it keeps, said without the
    loops that send: nothing that was received is lost. */
module ReassemblyHandover {
  import opened Bytes
  import opened GaussJordan
  import opened WireFormat
  import opened Reassembly
  import opened ReassemblyInvariants

  // ---------- the loops that send ----------

  /** A fragment that was received and has not been handed over yet. */
  ghost predicate Unsent(session: nat, p: Slot, k: nat, e: Send) {
    && e.session == session && e.block == p.block && p.toSend <= e.frag < k
    && e.frag in p.frags && e.buffer == Padded(p.frags[e.frag])
  }

  /** A fragment of a complete block, received or reconstructed, that has not been handed over yet. */
  ghost predicate Remaining(session: nat, q: Slot, k: nat, n: nat, e: Send)
    requires Complete(q, k, n)
  {
    && e.session == session && e.block == q.block && q.toSend <= e.frag < k
    && e.buffer == if e.frag in q.frags then Padded(q.frags[e.frag]) else Decoded(q.frags, k, n, e.frag)
  }

  lemma {:induction false} FlushHas(session: nat, p: Slot, k: nat, f: nat, e: Send)
    ensures e in Flush(session, p, k, f) <==> f <= e.frag && Unsent(session, p.(toSend := 0), k, e)
    decreases k - f
  {
    if f < k { FlushHas(session, p, k, f + 1, e); }
  }

  lemma {:induction false} FlushAllHas(session: nat, q: seq<Slot>, k: nat, e: Send)
    ensures e in FlushAll(session, q, k) <==> exists j :: 0 <= j < |q| && Unsent(session, q[j], k, e)
  {
    hide Flush;
    if q != [] {
      FlushHas(session, q[0], k, q[0].toSend, e);
      FlushAllHas(session, q[1..], k, e);
      if j :| 0 <= j < |q| && Unsent(session, q[j], k, e) {
        assert j > 0 ==> q[1..][j - 1] == q[j];
      }
      if j :| 0 <= j < |q[1..]| && Unsent(session, q[1..][j], k, e) {
        assert q[j + 1] == q[1..][j];
      }
    }
  }

  lemma {:induction false} PrefixHas(session: nat, q: Slot, k: nat, f: nat, hi: nat, e: Send)
    requires hi <= k && forall x :: f <= x < hi ==> x in q.frags
    ensures e in Prefix(session, q, k, f, hi) <==> f <= e.frag < hi && Unsent(session, q.(toSend := 0), k, e)
    decreases hi - f
  {
    if f < hi { PrefixHas(session, q, k, f + 1, hi, e); }
  }

  lemma {:induction false} SendRestHas(session: nat, q: Slot, k: nat, n: nat, f: nat, e: Send)
    requires Complete(q, k, n)
    ensures e in SendRest(session, q, k, n, f) <==> f <= e.frag && Remaining(session, q.(toSend := 0), k, n, e)
    decreases k - f
  {
    hide Decoded;
    if f < k { SendRestHas(session, q, k, n, f + 1, e); }
  }

  // ---------- one slot in one step ----------

  /** The ring has no slot for the block. */
  ghost predicate Gone(r: Source, block: nat) { forall i :: 0 <= i < |r.queue| ==> r.queue[i].block != block }

  /** What a step from s to r means for a slot in which the arrival marks nothing: it stays as it is, and
      nothing of it is handed over; or it leaves the ring, and exactly what it holds unsent is handed over. */
  ghost predicate Other(s: Source, r: Source, k: nat, p: Slot) {
    if p in r.queue then forall e :: e in Added(s, r) ==> e.block != p.block
    else Gone(r, p.block) && forall e: Send :: (e in Added(s, r) && e.block == p.block) <==> Unsent(s.session, p, k, e)
  }

  /** What it means for the slot in which the arrival marks a fragment.  If it is the k-th, the slot leaves
      the ring and all its primary fragments that were still unsent are handed over.  Otherwise it stays
      with the fragment; at the front what is contiguous is handed over, behind it nothing. */
  ghost predicate Own(s: Source, r: Source, k: nat, n: nat, p: Slot, frag: nat, content: seq<Byte>) {
    var q := Marked(p, frag, content);
    if |p.frags| + 1 == k then
      Complete(q, k, n) && Gone(r, p.block)
      && forall e: Send :: (e in Added(s, r) && e.block == p.block) <==> Remaining(s.session, q, k, n, e)
    else exists i :: 0 <= i < |r.queue| && Filled(s, r, k, q, i)
  }

  ghost predicate Filled(s: Source, r: Source, k: nat, q: Slot, i: nat)
    requires i < |r.queue|
  {
    var x := r.queue[i];
    && x.block == q.block && x.frags == q.frags && x.has == q.has && q.toSend <= x.toSend
    && (if i == 0 then x.toSend !in x.frags else x.toSend == q.toSend)
    && forall e: Send :: (e in Added(s, r) && e.block == q.block) <==> (Unsent(s.session, q, k, e) && e.frag < x.toSend)
  }

  /** Only blocks of the ring are handed over, and none come in. */
  ghost predicate Within(s: Source, r: Source) {
    && s.sends <= r.sends
    && (forall e :: e in Added(s, r) ==> !Gone(s, e.block))
    && (forall x :: x in r.queue ==> !Gone(s, x.block))
  }

  lemma InQueue(s: Source, x: Slot)
    requires x in s.queue
    ensures !Gone(s, x.block)
  {
    var i :| 0 <= i < |s.queue| && s.queue[i] == x;
  }

  lemma AddedIs(s: Source, r: Source, a: seq<Send>)
    requires r.sends == s.sends + a
    ensures s.sends <= r.sends && Added(s, r) == a
  {}

  /** The k-th fragment. */
  lemma FinishedHands(s: Source, r: Source, k: nat, n: nat, i: nat, q: Slot, e: Send)
    requires SourceOk(s, k, n) && i < |s.queue| && Complete(q, k, n) && Finished(s, r, k, n, i, q)
    ensures s.sends <= r.sends
    ensures e in Added(s, r) <==>
              (exists j :: 0 <= j < i && Unsent(s.session, s.queue[j], k, e)) || Remaining(s.session, q, k, n, e)
  {
    hide SourceOk, Complete, FlushAll, SendRest, Unsent, Decoded;
    var a, b := FlushAll(s.session, s.queue[..i], k), SendRest(s.session, q, k, n, q.toSend);
    assert r.sends == s.sends + (a + b);
    AddedIs(s, r, a + b);
    FlushAllHas(s.session, s.queue[..i], k, e);
    SendRestHas(s.session, q, k, n, q.toSend, e);
    if j :| 0 <= j < i && Unsent(s.session, s.queue[j], k, e) { assert s.queue[..i][j] == s.queue[j]; }
    if j :| 0 <= j < |s.queue[..i]| && Unsent(s.session, s.queue[..i][j], k, e) { assert s.queue[..i][j] == s.queue[j]; }
  }

  // ---------- a fragment goes into its slot ----------

  /** The step for the slot at position i, and for all others. */
  ghost predicate Inserts(s: Source, r: Source, k: nat, n: nat, i: nat, frag: nat, content: seq<Byte>)
    requires i < |s.queue|
  {
    && Within(s, r) && Own(s, r, k, n, s.queue[i], frag, content)
    && forall j :: 0 <= j < |s.queue| && j != i ==> Other(s, r, k, s.queue[j])
  }

  /** Different slots hold different blocks. */
  lemma BlocksDiffer(s: Source, k: nat, n: nat)
    requires SourceOk(s, k, n)
    ensures forall i, j :: 0 <= i < |s.queue| && 0 <= j < |s.queue| && i != j ==> s.queue[i].block != s.queue[j].block
  {}

  ghost predicate BlocksDistinct(s: Source) {
    forall i, j :: 0 <= i < |s.queue| && 0 <= j < |s.queue| && i != j ==> s.queue[i].block != s.queue[j].block
  }

  lemma FinishInserts(s: Source, r: Source, k: nat, n: nat, i: nat, frag: nat, content: seq<Byte>)
    requires SourceOk(s, k, n) && i < |s.queue| && frag !in s.queue[i].frags && |s.queue[i].frags| + 1 == k
    requires var q := Marked(s.queue[i], frag, content); Complete(q, k, n) && Finished(s, r, k, n, i, q)
    ensures Inserts(s, r, k, n, i, frag, content)
  {
    var p := s.queue[i];
    var q := Marked(p, frag, content);
    BlocksDiffer(s, k, n);
    forall e: Send
      ensures e in Added(s, r) <==>
                (exists j :: 0 <= j < i && Unsent(s.session, s.queue[j], k, e)) || Remaining(s.session, q, k, n, e)
      ensures s.sends <= r.sends
    {
      FinishedHands(s, r, k, n, i, q, e);
    }
    assert forall x :: 0 <= x < |r.queue| ==> r.queue[x] == s.queue[i + 1 + x];
    MarkedParts(p, frag, content);
    assert Finishes(s, r, k, n, i, q);
    hide SourceOk, Finished, Finishes, Complete, Marked, Added, Other, Within, Gone;
    FinishWithin(s, r, k, n, i, q);
    forall j | 0 <= j < |s.queue| && j != i
      ensures Other(s, r, k, s.queue[j])
    {
      FinishOther(s, r, k, n, i, q, j);
    }
    FinishOwn(s, r, k, n, i, q);
  }

  lemma MarkedParts(p: Slot, frag: nat, content: seq<Byte>)
    ensures var q := Marked(p, frag, content);
            q.block == p.block && q.toSend == p.toSend && q.frags == p.frags[frag := content] && q.has == p.has + 1
  {}

  /** What has been shown of the step that finishes slot i. */
  ghost predicate Finishes(s: Source, r: Source, k: nat, n: nat, i: nat, q: Slot)
    requires i < |s.queue| && Complete(q, k, n)
  {
    && BlocksDistinct(s) && s.sends <= r.sends && r.queue == s.queue[i + 1..] && q.block == s.queue[i].block
    && forall e: Send :: e in Added(s, r) <==>
         (exists j :: 0 <= j < i && Unsent(s.session, s.queue[j], k, e)) || Remaining(s.session, q, k, n, e)
  }

  lemma FinishWithin(s: Source, r: Source, k: nat, n: nat, i: nat, q: Slot)
    requires i < |s.queue| && Complete(q, k, n) && Finishes(s, r, k, n, i, q)
    ensures Within(s, r)
  {
    hide Added, Complete, Decoded;
    assert forall x :: 0 <= x < |r.queue| ==> r.queue[x] == s.queue[i + 1 + x];
  }

  lemma FinishOther(s: Source, r: Source, k: nat, n: nat, i: nat, q: Slot, j: nat)
    requires i < |s.queue| && Complete(q, k, n) && Finishes(s, r, k, n, i, q) && j < |s.queue| && j != i
    ensures Other(s, r, k, s.queue[j])
  {
    hide Added, Complete, Decoded;
    var p := s.queue[j];
    assert forall x :: 0 <= x < |r.queue| ==> r.queue[x] == s.queue[i + 1 + x];
    if j > i {
      assert r.queue[j - i - 1] == p;
    } else {
      assert Gone(r, p.block);
    }
  }

  lemma FinishOwn(s: Source, r: Source, k: nat, n: nat, i: nat, q: Slot)
    requires i < |s.queue| && Complete(q, k, n) && Finishes(s, r, k, n, i, q)
    ensures Gone(r, q.block)
    ensures forall e: Send :: (e in Added(s, r) && e.block == q.block) <==> Remaining(s.session, q, k, n, e)
  {
    hide Added, Complete, Decoded;
    assert forall x :: 0 <= x < |r.queue| ==> r.queue[x] == s.queue[i + 1 + x];
  }

  /** A fragment that is not the k-th, in the front slot. */
  lemma FrontInserts(s: Source, k: nat, n: nat, frag: nat, content: seq<Byte>)
    requires SourceOk(s, k, n) && s.queue != [] && frag < n && frag !in s.queue[0].frags && |s.queue[0].frags| + 1 < k
    ensures Inserts(s, Insert(s, k, n, 0, frag, content), k, n, 0, frag, content)
  {
    var p, r := s.queue[0], Insert(s, k, n, 0, frag, content);
    var q := Marked(p, frag, content);
    MarkOk(p, k, n, frag, content);
    MarkedParts(p, frag, content);
    BlocksDiffer(s, k, n);
    var next := FirstMissing(q.frags, k, q.toSend);
    if next == k { FirstMissingCount(q.frags, k); }
    FrontParts(s, k, n, q);
    assert r == InsertFront(s, k, n, q);
    AddedIs(s, r, Prefix(s.session, q, k, q.toSend, next));
    forall e: Send
      ensures e in Added(s, r) <==> e.frag < next && Unsent(s.session, q, k, e)
    {
      PrefixHas(s.session, q, k, q.toSend, next, e);
    }
    hide SourceOk, Insert, InsertFront, Marked, Prefix, Added, Padded;
    assert r.queue[0] == q.(toSend := next) && forall j :: 1 <= j < |s.queue| ==> r.queue[j] == s.queue[j];
    assert Filled(s, r, k, q, 0);
  }

  lemma FrontParts(s: Source, k: nat, n: nat, q: Slot)
    requires s.queue != [] && MarkedOk(q, k, n) && q.has < k && FirstMissing(q.frags, k, q.toSend) < k
    ensures var next := FirstMissing(q.frags, k, q.toSend);
            && InsertFront(s, k, n, q).queue == s.queue[0 := q.(toSend := next)]
            && InsertFront(s, k, n, q).sends == s.sends + Prefix(s.session, q, k, q.toSend, next)
  {}

  /** Such a fragment in a slot behind the front. */
  lemma BehindInserts(s: Source, k: nat, n: nat, i: nat, frag: nat, content: seq<Byte>)
    requires SourceOk(s, k, n) && 0 < i < |s.queue| && frag < n && frag !in s.queue[i].frags && |s.queue[i].frags| + 1 < k
    ensures Inserts(s, Insert(s, k, n, i, frag, content), k, n, i, frag, content)
  {
    var p, r := s.queue[i], Insert(s, k, n, i, frag, content);
    var q := Marked(p, frag, content);
    MarkOk(p, k, n, frag, content);
    MarkedParts(p, frag, content);
    BlocksDiffer(s, k, n);
    assert r.queue == s.queue[i := q] && r.sends == s.sends + [];
    AddedIs(s, r, []);
    hide SourceOk, Insert, Marked, Added, Padded;
    assert forall j :: 0 <= j < |s.queue| ==> r.queue[j] == if j == i then q else s.queue[j];
    assert Filled(s, r, k, q, i);
  }

  lemma InsertHands(s: Source, k: nat, n: nat, i: nat, frag: nat, content: seq<Byte>)
    requires SourceOk(s, k, n) && i < |s.queue| && frag < n && frag !in s.queue[i].frags
    ensures Inserts(s, Insert(s, k, n, i, frag, content), k, n, i, frag, content)
  {
    assert SlotOk(s.queue[i], k, n);
    KthFragment(s, k, n, i, frag, content);
    hide SourceOk, Insert, Finished, Inserts, Complete;
    if |s.queue[i].frags| + 1 == k {
      FinishInserts(s, Insert(s, k, n, i, frag, content), k, n, i, frag, content);
    } else if i == 0 {
      FrontInserts(s, k, n, frag, content);
    } else {
      BehindInserts(s, k, n, i, frag, content);
    }
  }

  // ---------- a block is opened ----------

  /** The slots before and after the opening, and how many of them have lost their place. */
  ghost function Lined(s: Source, block: nat, count: nat, i: nat): seq<Slot>
    requires count <= block + 1
  {
    s.queue + NewSlots(block + 1 - count, i)
  }

  function Evicted(size: nat): nat { if size <= RING_SIZE then 0 else size - RING_SIZE }

  ghost predicate EvictedHas(s: Source, all: seq<Slot>, k: nat, e: Send) {
    exists j :: 0 <= j < Evicted(|all|) && Unsent(s.session, all[j], k, e)
  }

  lemma AddedMore(s: Source, m: Source, r: Source, a: seq<Send>)
    requires s.sends <= m.sends && r.sends == m.sends + a
    ensures s.sends <= r.sends && Added(s, r) == Added(s, m) + a
  {
    assert r.sends == s.sends + (Added(s, m) + a);
  }

  /** Exactly what the evicted slots hold unsent is handed over. */
  lemma {:induction false} PushUpToHands(s: Source, k: nat, block: nat, count: nat, i: nat, e: Send)
    requires i <= count <= block + 1 && |s.queue| <= RING_SIZE
    ensures var r := PushUpTo(s, k, block, count, i);
            s.sends <= r.sends && (e in Added(s, r) <==> EvictedHas(s, Lined(s, block, count, i), k, e))
  {
    var all := Lined(s, block, count, i);
    if i == 0 {
      assert all == s.queue && PushUpTo(s, k, block, count, 0) == s;
      AddedIs(s, s, []);
    } else {
      var before := Lined(s, block, count, i - 1);
      var m, r := PushUpTo(s, k, block, count, i - 1), PushUpTo(s, k, block, count, i);
      PushUpToHands(s, k, block, count, i - 1, e);
      PushUpToYoungest(s, k, block, count, i - 1);
      NewSlotsNext(block + 1 - count, i - 1);
      var slot := Slot(block + i - count, 0, 0, map[]);
      assert all == before + [slot];
      assert r == Push(m, k, block + i - count);
      hide PushUpTo, Lined, NewSlots, Push;
      PushHands(s, m, r, k, block + i - count, before, e);
    }
  }

  lemma PushHands(s: Source, m: Source, r: Source, k: nat, block: nat, before: seq<Slot>, e: Send)
    requires s.sends <= m.sends && m.session == s.session && m.queue == Youngest(before) && r == Push(m, k, block)
    requires e in Added(s, m) <==> EvictedHas(s, before, k, e)
    ensures s.sends <= r.sends && (e in Added(s, r) <==> EvictedHas(s, before + [Slot(block, 0, 0, map[])], k, e))
  {
    var slot := Slot(block, 0, 0, map[]);
    PushSends(m, k, block);
    YoungestSize(before);
    hide *;
    EvictedNext(s, before, slot, k, e);
    if |before| >= RING_SIZE {
      var p := m.queue[0];
      AddedMore(s, m, r, Flush(s.session, p, k, p.toSend));
      FlushHas(s.session, p, k, p.toSend, e);
      UnsentFrom(s.session, p, k, e);
    }
  }

  lemma PushSends(m: Source, k: nat, block: nat)
    ensures Push(m, k, block).sends
            == if |m.queue| < RING_SIZE then m.sends else m.sends + Flush(m.session, m.queue[0], k, m.queue[0].toSend)
  {
    hide Flush;
  }

  lemma YoungestSize(q: seq<Slot>)
    ensures |Youngest(q)| < RING_SIZE <==> |q| < RING_SIZE
    ensures |q| >= RING_SIZE ==> |Youngest(q)| > 0 && Youngest(q)[0] == q[|q| - RING_SIZE]
  {}

  lemma EvictedNext(s: Source, before: seq<Slot>, slot: Slot, k: nat, e: Send)
    ensures EvictedHas(s, before + [slot], k, e)
            <==> EvictedHas(s, before, k, e) || (|before| >= RING_SIZE && Unsent(s.session, before[|before| - RING_SIZE], k, e))
  {
    hide Unsent;
    var all := before + [slot];
    assert forall j :: 0 <= j < |before| ==> all[j] == before[j];
    if EvictedHas(s, all, k, e) {
      var j :| 0 <= j < Evicted(|all|) && Unsent(s.session, all[j], k, e);
      assert j < Evicted(|before|) || j == |before| - RING_SIZE;
    }
    if EvictedHas(s, before, k, e) {
      var j :| 0 <= j < Evicted(|before|) && Unsent(s.session, before[j], k, e);
      assert Unsent(s.session, all[j], k, e);
    }
    if |before| >= RING_SIZE && Unsent(s.session, before[|before| - RING_SIZE], k, e) {
      assert Unsent(s.session, all[|before| - RING_SIZE], k, e);
    }
  }

  lemma UnsentFrom(session: nat, p: Slot, k: nat, e: Send)
    ensures Unsent(session, p, k, e) <==> p.toSend <= e.frag && Unsent(session, p.(toSend := 0), k, e)
  {}

  /** Opening a block: every slot of the ring stays or is handed over, and the new ones are empty. */
  ghost predicate Opens(s: Source, r: Source, k: nat, block: nat) {
    && s.sends <= r.sends && s.session == r.session
    && (forall e :: e in Added(s, r) ==> !Gone(s, e.block))
    && (forall p :: p in s.queue ==> Other(s, r, k, p))
    && (forall x :: x in r.queue ==> x in s.queue || x.block > s.last)
  }

  lemma OpenHands(s: Source, k: nat, n: nat, block: nat)
    requires SourceOk(s, k, n) && block > s.last
    ensures Opens(s, Open(s, k, block), k, block)
  {
    var c, r := NewBlocks(s, block), Open(s, k, block);
    var t, all := s.(last := block), Lined(s, block, c, c);
    QueueFits(s, k, n);
    BlocksDiffer(s, k, n);
    PushUpToYoungest(t, k, block, c, c);
    assert r == PushUpTo(t, k, block, c, c) && r.queue == Youngest(all) && r.session == s.session;
    assert Lined(t, block, c, c) == all;
    PushUpToHands(t, k, block, c, c, Send(0, 0, 0, []));
    forall e: Send
      ensures e in Added(s, r) <==> EvictedHas(s, all, k, e)
    {
      PushUpToHands(t, k, block, c, c, e);
      assert Added(t, r) == Added(s, r);
    }
    LinedSlots(s, k, n, block, all);
    hide SourceOk, Open, PushUpTo, Added, Lined, NewBlocks, NewSlots;
    OpenSlots(s, r, k, block, all);
  }

  /** The old slots come first, and the new ones are empty. */
  ghost predicate OldFirst(s: Source, all: seq<Slot>) {
    && |s.queue| <= |all| && (forall j :: 0 <= j < |s.queue| ==> all[j] == s.queue[j] && s.queue[j].block <= s.last)
    && (forall j :: |s.queue| <= j < |all| ==> all[j].frags == map[] && all[j].block > s.last)
    && Evicted(|all|) <= |all|
  }

  lemma LinedSlots(s: Source, k: nat, n: nat, block: nat, all: seq<Slot>)
    requires SourceOk(s, k, n) && block > s.last && all == Lined(s, block, NewBlocks(s, block), NewBlocks(s, block))
    ensures OldFirst(s, all)
  {
    QueueFits(s, k, n);
    var c := NewBlocks(s, block);
    forall j | |s.queue| <= j < |all|
      ensures all[j].frags == map[] && all[j].block > s.last
    {
      assert all[j] == NewSlots(block + 1 - c, c)[j - |s.queue|];
    }
  }

  lemma OpenSlots(s: Source, r: Source, k: nat, block: nat, all: seq<Slot>)
    requires BlocksDistinct(s) && s.sends <= r.sends && s.session == r.session && OldFirst(s, all) && r.queue == Youngest(all)
    requires forall e: Send :: e in Added(s, r) <==> EvictedHas(s, all, k, e)
    ensures Opens(s, r, k, block)
  {
    assert HandsEvicted(s, r, k, all);
    hide *;
    forall e | e in Added(s, r)
      ensures !Gone(s, e.block)
    {
      EvictedKnown(s, r, k, all, e);
    }
    forall p | p in s.queue
      ensures Other(s, r, k, p)
    {
      var j :| 0 <= j < |s.queue| && s.queue[j] == p;
      if j >= Evicted(|all|) {
        KeptSlot(s, r, k, all, j);
      } else {
        EvictedSlot(s, r, k, all, j);
      }
    }
    forall x | x in r.queue
      ensures x in s.queue || x.block > s.last
    {
      OldOrNew(s, r, all, x);
    }
    OpensIs(s, r, k, block);
  }

  lemma OpensIs(s: Source, r: Source, k: nat, block: nat)
    requires s.sends <= r.sends && s.session == r.session
    requires forall e :: e in Added(s, r) ==> !Gone(s, e.block)
    requires forall p :: p in s.queue ==> Other(s, r, k, p)
    requires forall x :: x in r.queue ==> x in s.queue || x.block > s.last
    ensures Opens(s, r, k, block)
  {
    hide Added, Gone, Other;
  }

  lemma EvictedKnown(s: Source, r: Source, k: nat, all: seq<Slot>, e: Send)
    requires HandsEvicted(s, r, k, all) && e in Added(s, r)
    ensures !Gone(s, e.block)
  {
    var x := EvictedBlock(s, k, all, e);
  }

  lemma OldOrNew(s: Source, r: Source, all: seq<Slot>, x: Slot)
    requires OldFirst(s, all) && r.queue == Youngest(all) && x in r.queue
    ensures x in s.queue || x.block > s.last
  {
    var i :| 0 <= i < |r.queue| && r.queue[i] == x;
    var j := |all| - |r.queue| + i;
    assert x == all[j];
    if j < |s.queue| { assert x == s.queue[j]; }
  }

  lemma UnsentBlock(session: nat, p: Slot, k: nat, e: Send)
    requires Unsent(session, p, k, e)
    ensures e.block == p.block && p.frags != map[]
  {}

  /** All that an opening hands over. */
  ghost predicate HandsEvicted(s: Source, r: Source, k: nat, all: seq<Slot>) {
    && BlocksDistinct(s) && OldFirst(s, all) && r.queue == Youngest(all)
    && forall e: Send :: e in Added(s, r) <==> EvictedHas(s, all, k, e)
  }

  lemma EvictedBlock(s: Source, k: nat, all: seq<Slot>, e: Send) returns (j: nat)
    requires OldFirst(s, all) && EvictedHas(s, all, k, e)
    ensures j < |s.queue| && j < Evicted(|all|) && Unsent(s.session, s.queue[j], k, e) && e.block == s.queue[j].block
  {
    hide Padded;
    j :| 0 <= j < Evicted(|all|) && Unsent(s.session, all[j], k, e);
    UnsentBlock(s.session, all[j], k, e);
  }

  lemma KeptSlot(s: Source, r: Source, k: nat, all: seq<Slot>, j: nat)
    requires HandsEvicted(s, r, k, all) && Evicted(|all|) <= j < |s.queue|
    ensures Other(s, r, k, s.queue[j])
  {
    hide *;
    KeptThere(s, r, k, all, j);
    forall e | e in Added(s, r)
      ensures e.block != s.queue[j].block
    {
      NoneOfKept(s, r, k, all, j, e);
    }
    OtherStays(s, r, k, s.queue[j]);
  }

  lemma OtherStays(s: Source, r: Source, k: nat, p: Slot)
    requires p in r.queue && forall e :: e in Added(s, r) ==> e.block != p.block
    ensures Other(s, r, k, p)
  {}

  lemma KeptThere(s: Source, r: Source, k: nat, all: seq<Slot>, j: nat)
    requires HandsEvicted(s, r, k, all) && Evicted(|all|) <= j < |s.queue|
    ensures s.queue[j] in r.queue
  {
    hide EvictedHas, BlocksDistinct, Added;
    var x := j - Evicted(|all|);
    assert r.queue[x] == all[|all| - |r.queue| + x] == all[j];
  }

  lemma NoneOfKept(s: Source, r: Source, k: nat, all: seq<Slot>, j: nat, e: Send)
    requires HandsEvicted(s, r, k, all) && Evicted(|all|) <= j < |s.queue| && e in Added(s, r)
    ensures e.block != s.queue[j].block
  {
    var x := EvictedBlock(s, k, all, e);
  }

  lemma EvictedSlot(s: Source, r: Source, k: nat, all: seq<Slot>, j: nat)
    requires HandsEvicted(s, r, k, all) && j < |s.queue| && j < Evicted(|all|)
    ensures Other(s, r, k, s.queue[j])
  {
    var p := s.queue[j];
    hide Added, Unsent;
    forall x | 0 <= x < |r.queue|
      ensures r.queue[x].block != p.block
    {
      assert r.queue[x] == all[Evicted(|all|) + x];
    }
    assert p !in r.queue;
    forall e: Send
      ensures (e in Added(s, r) && e.block == p.block) <==> Unsent(s.session, p, k, e)
    {
      if Unsent(s.session, p, k, e) {
        assert all[j] == p;
        UnsentBlock(s.session, p, k, e);
      }
      if EvictedHas(s, all, k, e) { var x := EvictedBlock(s, k, all, e); }
    }
  }

  // ---------- any arrival ----------

  /** The slot of a block, or an empty one. */
  ghost function SlotOf(s: Source, block: nat): Slot {
    var i := Find(s.queue, block);
    if i < |s.queue| then s.queue[i] else Slot(block, 0, 0, map[])
  }

  /** The fragment is marked: its block is in the ring or newer than all seen, and it is new there. */
  ghost predicate Takes(s: Source, block: nat, frag: nat) {
    (!Gone(s, block) || block > s.last) && frag !in SlotOf(s, block).frags
  }

  /** Every arrival in a session that is entered as s: the slot that takes the fragment and all others. */
  ghost predicate Hands(s: Source, r: Source, k: nat, n: nat, block: nat, frag: nat, content: seq<Byte>) {
    if Takes(s, block, frag) then
      && s.sends <= r.sends && Own(s, r, k, n, SlotOf(s, block), frag, content)
      && forall p :: p in s.queue && p.block != block ==> Other(s, r, k, p)
    else r == s
  }

  /** Whatever arrives, exactly this is handed over: nothing that was received is lost, whether its block
      is completed, flushed or evicted. */
  lemma ReceiveHands(s: Source, k: nat, n: nat, session: nat, block: nat, frag: nat, content: seq<Byte>)
    requires SourceOk(s, k, n)
    ensures var r := Receive(s, k, n, session, block, frag, content);
            if frag < n && Acceptable(s, session) then Hands(EnterSession(s, session), r, k, n, block, frag, content) else r == s
  {
    if frag < n && Acceptable(s, session) {
      var t := EnterSession(s, session);
      var i := Find(t.queue, block);
      hide Insert, Open, Hands;
      if i < |t.queue| {
        FoundHands(t, k, n, i, block, frag, content);
      } else if block <= t.last {
        NotTaken(t, k, n, block, frag, content);
      } else {
        OpenOk(t, k, n, block);
        OpenedHands(t, k, n, block, frag, content);
      }
    }
  }

  lemma NotTaken(t: Source, k: nat, n: nat, block: nat, frag: nat, content: seq<Byte>)
    requires Find(t.queue, block) == |t.queue| && block <= t.last
    ensures Hands(t, t, k, n, block, frag, content)
  {}

  lemma FoundHands(t: Source, k: nat, n: nat, i: nat, block: nat, frag: nat, content: seq<Byte>)
    requires SourceOk(t, k, n) && i == Find(t.queue, block) < |t.queue| && frag < n
    ensures Hands(t, Insert(t, k, n, i, frag, content), k, n, block, frag, content)
  {
    var r := Insert(t, k, n, i, frag, content);
    if frag in t.queue[i].frags {
      assert r == t;
    } else {
      InsertHands(t, k, n, i, frag, content);
      assert Takes(t, block, frag);
      hide SourceOk, Insert, Own, Other;
    }
  }

  lemma OpenedHands(t: Source, k: nat, n: nat, block: nat, frag: nat, content: seq<Byte>)
    requires SourceOk(t, k, n) && Find(t.queue, block) == |t.queue| && block > t.last && frag < n
    requires var m := Open(t, k, block); SourceOk(m, k, n) && m.queue != [] && m.queue[|m.queue| - 1] == Slot(block, 0, 0, map[])
    ensures var m := Open(t, k, block); Hands(t, Insert(m, k, n, |m.queue| - 1, frag, content), k, n, block, frag, content)
  {
    var m := Open(t, k, block);
    var i := |m.queue| - 1;
    var r := Insert(m, k, n, i, frag, content);
    OpenHands(t, k, n, block);
    InsertHands(m, k, n, i, frag, content);
    BlocksDiffer(m, k, n);
    OldBlocks(t, k, n);
    NotInRing(t, block);
    assert m.queue[i].block == block && frag !in m.queue[i].frags;
    assert t.sends <= r.sends by { AddedJoins(t, m, r); }
    hide *;
    forall p | p in t.queue
      ensures Other(t, r, k, p)
    {
      OtherLater(t, m, r, k, n, i, block, frag, content, p);
    }
    OwnLater(t, m, r, k, n, i, block, frag, content);
    TakesIs(t, r, k, n, block, frag, content);
  }

  lemma NotInRing(t: Source, block: nat)
    requires Find(t.queue, block) == |t.queue|
    ensures Gone(t, block) && SlotOf(t, block) == Slot(block, 0, 0, map[])
  {}

  lemma TakesIs(t: Source, r: Source, k: nat, n: nat, block: nat, frag: nat, content: seq<Byte>)
    requires block > t.last && SlotOf(t, block) == Slot(block, 0, 0, map[]) && t.sends <= r.sends
    requires Own(t, r, k, n, Slot(block, 0, 0, map[]), frag, content) && forall p :: p in t.queue ==> Other(t, r, k, p)
    ensures Hands(t, r, k, n, block, frag, content)
  {
    hide Own, Other, SlotOf;
  }

  lemma OldBlocks(t: Source, k: nat, n: nat)
    requires SourceOk(t, k, n)
    ensures forall p :: p in t.queue ==> p.block <= t.last
  {}

  lemma AddedJoins(t: Source, m: Source, r: Source)
    requires t.sends <= m.sends && m.sends <= r.sends
    ensures t.sends <= r.sends && Added(t, r) == Added(t, m) + Added(m, r)
  {}

  /** A slot of the old ring, over the opening and the insertion. */
  lemma OtherLater(t: Source, m: Source, r: Source, k: nat, n: nat, i: nat, block: nat, frag: nat, content: seq<Byte>, p: Slot)
    requires Opens(t, m, k, block) && i < |m.queue| && Inserts(m, r, k, n, i, frag, content) && m.queue[i].block == block
    requires p in t.queue && p.block < block
    ensures Other(t, r, k, p)
  {
    AddedJoins(t, m, r);
    hide Own, Unsent, Added;
    if p in m.queue {
      var j :| 0 <= j < |m.queue| && m.queue[j] == p;
      assert Other(m, r, k, m.queue[j]);
    } else {
      StaysGone(m, r, p.block);
      assert p !in r.queue by { if p in r.queue { InQueue(r, p); } }
    }
  }

  lemma StaysGone(m: Source, r: Source, block: nat)
    requires Within(m, r) && Gone(m, block)
    ensures Gone(r, block) && forall e :: e in Added(m, r) ==> e.block != block
  {
    forall i | 0 <= i < |r.queue|
      ensures r.queue[i].block != block
    {
      assert r.queue[i] in r.queue;
    }
  }

  /** The opened slot. */
  lemma OwnLater(t: Source, m: Source, r: Source, k: nat, n: nat, i: nat, block: nat, frag: nat, content: seq<Byte>)
    requires Opens(t, m, k, block) && i < |m.queue| && Inserts(m, r, k, n, i, frag, content) && m.queue[i].block == block
    requires forall p :: p in t.queue ==> p.block < block
    ensures Own(t, r, k, n, m.queue[i], frag, content)
  {
    AddedJoins(t, m, r);
    assert forall e :: e in Added(t, m) ==> e.block != block;
    var p := m.queue[i];
    var q := Marked(p, frag, content);
    MarkedParts(p, frag, content);
    hide Marked, Other, Unsent, Remaining, Complete, Added;
    assert Own(m, r, k, n, p, frag, content);
    if |p.frags| + 1 != k {
      var x :| 0 <= x < |r.queue| && Filled(m, r, k, q, x);
      assert Filled(t, r, k, q, x);
    }
  }

  // ---------- over runs ----------

  /** The fragment waits in the ring, or its call has been made. */
  ghost predicate HeldOrSent(s: Source, session: nat, block: nat, frag: nat, content: seq<Byte>) {
    Send(session, block, frag, Padded(content)) in s.sends || exists x :: x in s.queue && Holds(x, block, frag, content)
  }

  ghost predicate Holds(x: Slot, block: nat, frag: nat, content: seq<Byte>) {
    x.block == block && x.toSend <= frag && frag in x.frags && x.frags[frag] == content
  }

  /** … unless its session has been superseded. */
  ghost predicate NotLost(s: Source, session: nat, block: nat, frag: nat, content: seq<Byte>) {
    session in s.retired || (s.hasSession && s.session == session && HeldOrSent(s, session, block, frag, content))
  }

  /** A fragment that is held when something else arrives. */
  lemma HeldStep(t: Source, r: Source, k: nat, n: nat, block: nat, frag: nat, content: seq<Byte>, x: Slot, f: nat, c: seq<Byte>)
    requires SourceOk(t, k, n) && Hands(t, r, k, n, block, frag, content) && x in t.queue && Holds(x, x.block, f, c) && f < k
    ensures HeldOrSent(r, t.session, x.block, f, c)
  {
    var e := Send(t.session, x.block, f, Padded(c));
    if Takes(t, block, frag) {
      hide Padded;
      assert r.sends == t.sends + Added(t, r);
      if x.block != block {
        hide SourceOk, Own, Added;
        assert Other(t, r, k, x);
        if x !in r.queue { assert Unsent(t.session, x, k, e); }
      } else {
        FoundSlot(t, k, n, block, x);
        hide SourceOk, Other;
        OwnHeld(t, r, k, n, x, frag, content, f, c);
      }
    }
  }

  lemma FoundSlot(t: Source, k: nat, n: nat, block: nat, x: Slot)
    requires SourceOk(t, k, n) && x in t.queue && x.block == block
    ensures SlotOf(t, block) == x
  {
    BlocksDiffer(t, k, n);
    var i :| 0 <= i < |t.queue| && t.queue[i] == x;
    assert Find(t.queue, block) == i;
  }

  /** A fragment of the slot that takes another one, or the one that it takes. */
  lemma OwnHeld(t: Source, r: Source, k: nat, n: nat, p: Slot, frag: nat, content: seq<Byte>, f: nat, c: seq<Byte>)
    requires Own(t, r, k, n, p, frag, content) && t.sends <= r.sends && frag !in p.frags && p.toSend <= f < k
    requires if f == frag then c == content else f in p.frags && p.frags[f] == c
    ensures HeldOrSent(r, t.session, p.block, f, c)
  {
    var q, e := Marked(p, frag, content), Send(t.session, p.block, f, Padded(c));
    MarkedParts(p, frag, content);
    assert r.sends == t.sends + Added(t, r);
    hide Marked, Padded, Added, Decoded, Complete;
    if |p.frags| + 1 == k {
      assert Complete(q, k, n) && Remaining(t.session, q, k, n, e);
    } else {
      var i :| 0 <= i < |r.queue| && Filled(t, r, k, q, i);
      if r.queue[i].toSend <= f {
        assert r.queue[i] in r.queue && Holds(r.queue[i], p.block, f, c);
      } else {
        assert Unsent(t.session, q, k, e);
      }
    }
  }

  /** The fragment that an arrival brings. */
  lemma TakenStep(t: Source, r: Source, k: nat, n: nat, block: nat, frag: nat, content: seq<Byte>)
    requires SourceOk(t, k, n) && Hands(t, r, k, n, block, frag, content) && Takes(t, block, frag) && frag < k
    ensures HeldOrSent(r, t.session, block, frag, content)
  {
    var p := SlotOf(t, block);
    assert p.toSend <= frag && p.block == block by { UnmarkedLater(t, k, n, block, frag); }
    hide SourceOk, HeldOrSent, Own, SlotOf;
    OwnHeld(t, r, k, n, p, frag, content, frag, content);
  }

  lemma UnmarkedLater(t: Source, k: nat, n: nat, block: nat, frag: nat)
    requires SourceOk(t, k, n) && frag !in SlotOf(t, block).frags
    ensures SlotOf(t, block).toSend <= frag && SlotOf(t, block).block == block
  {
    var i := Find(t.queue, block);
    if i < |t.queue| { assert SlotOk(t.queue[i], k, n); }
  }

  /** No arrival loses it. */
  lemma NotLostStep(s: Source, k: nat, n: nat, a: Arrival, session: nat, block: nat, frag: nat, content: seq<Byte>)
    requires LogOk(s, k, n) && frag < k && NotLost(s, session, block, frag, content)
    ensures NotLost(Receive(s, k, n, a.session, a.block, a.frag, a.content), session, block, frag, content)
  {
    var r := Receive(s, k, n, a.session, a.block, a.frag, a.content);
    ReceiveHands(s, k, n, a.session, a.block, a.frag, a.content);
    ReceiveKeepsLog(s, k, n, a.session, a.block, a.frag, a.content);
    ReceiveStep(s, k, n, a.session, a.block, a.frag, a.content);
    assert SourceOk(s, k, n);
    if session !in s.retired && a.frag < n && Acceptable(s, a.session) {
      if s.session == a.session {
        var t := EnterSession(s, a.session);
        assert t == s;
        hide LogOk, Receive, Hands, SourceOk, Acceptable, EnterSession, Extends, Holds, Padded;
        SameSessionStep(s, r, k, n, a, block, frag, content);
      } else {
        hide LogOk, Receive, Hands, SourceOk, Extends, HeldOrSent;
        assert session in EnterSession(s, a.session).retired;
      }
    }
  }

  lemma SameSessionStep(s: Source, r: Source, k: nat, n: nat, a: Arrival, block: nat, frag: nat, content: seq<Byte>)
    requires SourceOk(s, k, n) && Hands(s, r, k, n, a.block, a.frag, a.content) && frag < k && s.sends <= r.sends
    requires HeldOrSent(s, s.session, block, frag, content)
    ensures HeldOrSent(r, s.session, block, frag, content)
  {
    hide Hands, SourceOk, Padded;
    if Send(s.session, block, frag, Padded(content)) !in s.sends {
      var x :| x in s.queue && Holds(x, block, frag, content);
      HeldStep(s, r, k, n, a.block, a.frag, a.content, x, frag, content);
    }
  }

  /** Is the arrival accepted and marked? */
  ghost predicate Marks(s: Source, n: nat, a: Arrival) {
    a.frag < n && Acceptable(s, a.session) && Takes(EnterSession(s, a.session), a.block, a.frag)
  }

  lemma MarkedStep(s: Source, k: nat, n: nat, a: Arrival)
    requires LogOk(s, k, n) && Marks(s, n, a) && a.frag < k
    ensures NotLost(Receive(s, k, n, a.session, a.block, a.frag, a.content), a.session, a.block, a.frag, a.content)
  {
    var t, r := EnterSession(s, a.session), Receive(s, k, n, a.session, a.block, a.frag, a.content);
    ReceiveHands(s, k, n, a.session, a.block, a.frag, a.content);
    ReceiveStep(s, k, n, a.session, a.block, a.frag, a.content);
    assert SourceOk(t, k, n);
    hide LogOk, Receive, Hands, SourceOk, Extends, HeldOrSent;
    TakenStep(t, r, k, n, a.block, a.frag, a.content);
  }

  /** Every primary fragment that was ever accepted is handed over, or still in the ring, unless its
      session has been superseded: completing, flushing and evicting blocks loses nothing. */
  lemma {:induction false} NothingReceivedIsLost(k: nat, n: nat, history: seq<Arrival>, i: nat)
    requires CodeParameters(k, n) && i < |history| && history[i].frag < k && Marks(Run(k, n, history[..i]), n, history[i])
    ensures var a := history[i]; NotLost(Run(k, n, history), a.session, a.block, a.frag, a.content)
    decreases |history|
  {
    var h, a, z := history[..|history| - 1], history[i], history[|history| - 1];
    var s := Run(k, n, h);
    assert h[..i] == history[..i];
    assert LogOk(s, k, n) && Run(k, n, history) == Receive(s, k, n, z.session, z.block, z.frag, z.content);
    hide Run, NotLost, Marks, LogOk, Receive;
    if i == |history| - 1 {
      assert h == history[..i];
      MarkedStep(s, k, n, a);
    } else {
      NothingReceivedIsLost(k, n, h, i);
      NotLostStep(s, k, n, z, a.session, a.block, a.frag, a.content);
    }
  }

  // ---------- the front block ----------

  /** The front block's next unsent fragment is there and waits. */
  ghost predicate FrontWaits(s: Source) { s.queue != [] && s.queue[0].toSend in s.queue[0].frags }

  /** Once something of the front block has been handed over, its next fragment never waits. */
  ghost predicate FrontOk(s: Source) { FrontWaits(s) ==> s.queue[0].toSend == 0 }

  lemma InsertFrontWaits(s: Source, k: nat, n: nat, i: nat, frag: nat, content: seq<Byte>)
    requires SourceOk(s, k, n) && i < |s.queue| && frag < n && FrontOk(s)
    ensures var r := Insert(s, k, n, i, frag, content);
            && FrontOk(r)
            && (frag !in s.queue[i].frags && r.queue != [] && r.queue[0].block == s.queue[i].block ==> !FrontWaits(r))
  {
    if frag !in s.queue[i].frags {
      InsertHands(s, k, n, i, frag, content);
      InsertOk(s, k, n, i, frag, content);
      BlocksDiffer(s, k, n);
      KthFragment(s, k, n, i, frag, content);
      hide Prefix, SendRest, Complete, Finished, Other, Unsent, Remaining, Within;
      var r, p := Insert(s, k, n, i, frag, content), s.queue[i];
      MarkOk(p, k, n, frag, content);
      if |p.frags| + 1 == k {
        assert r.queue == s.queue[i + 1..] by { FinishedQueue(s, r, k, n, i, Marked(p, frag, content)); }
      } else {
        var x :| 0 <= x < |r.queue| && Filled(s, r, k, Marked(p, frag, content), x);
        BlocksDiffer(r, k, n);
      }
    }
  }

  lemma FinishedQueue(s: Source, r: Source, k: nat, n: nat, i: nat, q: Slot)
    requires i < |s.queue| && Complete(q, k, n) && Finished(s, r, k, n, i, q)
    ensures r.queue == s.queue[i + 1..]
  {}

  lemma OpenFrontOk(s: Source, k: nat, n: nat, block: nat)
    requires SourceOk(s, k, n) && FrontOk(s) && block > s.last
    ensures FrontOk(Open(s, k, block))
  {
    var c := NewBlocks(s, block);
    PushUpToYoungest(s.(last := block), k, block, c, c);
    var all := s.queue + NewSlots(block + 1 - c, c);
    assert Open(s, k, block).queue == Youngest(all);
    hide Open, PushUpTo, NewBlocks;
    var y := |all| - |Youngest(all)|;
    assert Youngest(all) != [] ==> Youngest(all)[0] == all[y];
    assert y >= |s.queue| && y < |all| ==> all[y] == NewSlots(block + 1 - c, c)[y - |s.queue|];
  }

  lemma ReceiveFront(s: Source, k: nat, n: nat, a: Arrival)
    requires SourceOk(s, k, n) && FrontOk(s)
    ensures var r := Receive(s, k, n, a.session, a.block, a.frag, a.content);
            FrontOk(r) && (Marks(s, n, a) && r.queue != [] && r.queue[0].block == a.block ==> !FrontWaits(r))
  {
    if a.frag < n && Acceptable(s, a.session) {
      var t := EnterSession(s, a.session);
      assert FrontOk(t);
      var i := Find(t.queue, a.block);
      hide Insert, Open, FrontWaits;
      if i < |t.queue| {
        InsertFrontWaits(t, k, n, i, a.frag, a.content);
      } else if a.block > t.last {
        var m := Open(t, k, a.block);
        OpenOk(t, k, n, a.block);
        OpenFrontOk(t, k, n, a.block);
        InsertFrontWaits(m, k, n, |m.queue| - 1, a.frag, a.content);
      }
    }
  }

  /** Between arrivals the front block's next unsent fragment waits if and only if nothing of the block has
      been handed over and its first fragment is there: it came while the block was behind the front. */
  lemma {:induction false} FrontWaitsExactly(k: nat, n: nat, history: seq<Arrival>)
    requires CodeParameters(k, n)
    ensures var s := Run(k, n, history);
            FrontWaits(s) <==> s.queue != [] && s.queue[0].toSend == 0 && 0 in s.queue[0].frags
    decreases |history|
  {
    if history != [] {
      var h, a := history[..|history| - 1], history[|history| - 1];
      FrontWaitsExactly(k, n, h);
      assert LogOk(Run(k, n, h), k, n);
      assert Run(k, n, history) == Receive(Run(k, n, h), k, n, a.session, a.block, a.frag, a.content);
      hide Run, Receive;
      ReceiveFront(Run(k, n, h), k, n, a);
    }
  }

  /** An arrival that is marked in the block at the front lets it catch up. */
  lemma FrontCatchesUp(k: nat, n: nat, history: seq<Arrival>, a: Arrival)
    requires CodeParameters(k, n) && Marks(Run(k, n, history), n, a)
    ensures var r := Run(k, n, history + [a]); r.queue != [] && r.queue[0].block == a.block ==> !FrontWaits(r)
  {
    FrontWaitsExactly(k, n, history);
    assert (history + [a])[..|history|] == history;
    assert LogOk(Run(k, n, history), k, n);
    ReceiveFront(Run(k, n, history), k, n, a);
  }

  lemma OpenOne(s: Source, k: nat, block: nat)
    requires |s.queue| < 40 && s.last == block - 1
    ensures Open(s, k, block) == s.(last := block, queue := s.queue + [Slot(block, 0, 0, map[])])
  {
    var t := s.(last := block);
    assert NewBlocks(s, block) == 1;
    assert PushUpTo(t, k, block, 1, 0) == t;
    assert PushUpTo(t, k, block, 1, 1) == Push(t, k, block);
  }

  /** The case is real: with k = 2, a block that has its first fragment comes to the front when the block
      before it is finished, and that fragment is not handed over yet. */
  lemma FrontMayWait()
    ensures FrontWaits(Run(2, 3, [Arrival(9, 0, 0, []), Arrival(9, 1, 0, []), Arrival(9, 0, 1, [])]))
  {
    var a, b, c := Arrival(9, 0, 0, []), Arrival(9, 1, 0, []), Arrival(9, 0, 1, []);
    var none: seq<Arrival> := [];
    assert [a][..0] == none && [a, b][..1] == [a] && [a, b, c][..2] == [a, b];
    assert Run(2, 3, none) == FRESH_SOURCE;
    var s1, s2, s3 := Run(2, 3, [a]), Run(2, 3, [a, b]), Run(2, 3, [a, b, c]);
    assert s1 == Receive(FRESH_SOURCE, 2, 3, 9, 0, 0, []);
    assert s2 == Receive(s1, 2, 3, 9, 1, 0, []);
    assert s3 == Receive(s2, 2, 3, 9, 0, 1, []);
    hide Run;
    FirstWaits(FRESH_SOURCE);
    SecondWaits(s1);
    ThirdWaits(s2);
  }

  /** The state after one fragment of block 0, and after one of block 1 too. */
  ghost predicate HasOne(s: Source) {
    s.hasSession && s.session == 9 && s.last == 0 && s.queue == [Slot(0, 1, 1, map[0 := []])]
  }

  ghost predicate HasTwo(s: Source) {
    s.hasSession && s.session == 9 && s.last == 1 && s.queue == [Slot(0, 1, 1, map[0 := []]), Slot(1, 0, 1, map[0 := []])]
  }

  lemma FirstWaits(s: Source)
    requires s == FRESH_SOURCE && SourceOk(s, 2, 3)
    ensures HasOne(Receive(s, 2, 3, 9, 0, 0, []))
  {
    var t := EnterSession(s, 9);
    assert t == FRESH_SOURCE.(hasSession := true, session := 9) && SourceOk(t, 2, 3);
    hide SourceOk, Insert, Open, Receive;
    NewBlock(s, 2, 3, Arrival(9, 0, 0, []));
    OpenOne(t, 2, 0);
    FirstInsert(Open(t, 2, 0));
  }

  lemma NewBlock(s: Source, k: nat, n: nat, a: Arrival)
    requires SourceOk(s, k, n) && a.frag < n && Acceptable(s, a.session)
    requires var t := EnterSession(s, a.session); Find(t.queue, a.block) == |t.queue| && a.block > t.last
    ensures var m := Open(EnterSession(s, a.session), k, a.block);
            && SourceOk(m, k, n) && m.queue != []
            && Receive(s, k, n, a.session, a.block, a.frag, a.content) == Insert(m, k, n, |m.queue| - 1, a.frag, a.content)
  {
    OpenOk(EnterSession(s, a.session), k, n, a.block);
  }

  lemma FirstInsert(m: Source)
    requires SourceOk(m, 2, 3) && m.queue == [Slot(0, 0, 0, map[])]
    ensures Insert(m, 2, 3, 0, 0, []).queue == [Slot(0, 1, 1, map[0 := []])]
    ensures Insert(m, 2, 3, 0, 0, []) == m.(queue := Insert(m, 2, 3, 0, 0, []).queue, sends := Insert(m, 2, 3, 0, 0, []).sends)
  {
    var q := Marked(m.queue[0], 0, []);
    MarkOk(m.queue[0], 2, 3, 0, []);
    assert FirstMissing(q.frags, 2, 1) == 1 && FirstMissing(q.frags, 2, 0) == 1;
    assert Insert(m, 2, 3, 0, 0, []) == InsertFront(m, 2, 3, q);
    assert q.frags == map[0 := []];
  }

  lemma SecondWaits(s: Source)
    requires HasOne(s) && SourceOk(s, 2, 3)
    ensures HasTwo(Receive(s, 2, 3, 9, 1, 0, []))
  {
    OpenOne(s, 2, 1);
    var m := Open(s, 2, 1);
    assert EnterSession(s, 9) == s && Find(s.queue, 1) == 1;
    OpenOk(s, 2, 3, 1);
    hide Open;
    var q := Marked(m.queue[1], 0, []);
    MarkOk(m.queue[1], 2, 3, 0, []);
    assert Receive(s, 2, 3, 9, 1, 0, []) == Insert(m, 2, 3, 1, 0, []) == InsertBehind(m, 2, 3, 1, q);
    assert q.frags == map[0 := []];
  }

  lemma ThirdWaits(s: Source)
    requires HasTwo(s) && SourceOk(s, 2, 3)
    ensures FrontWaits(Receive(s, 2, 3, 9, 0, 1, []))
  {
    assert EnterSession(s, 9) == s && Find(s.queue, 0) == 0;
    var q := Marked(s.queue[0], 1, []);
    MarkOk(s.queue[0], 2, 3, 1, []);
    assert FirstMissing(q.frags, 2, 2) == 2 && FirstMissing(q.frags, 2, 1) == 2;
    assert Receive(s, 2, 3, 9, 0, 1, []) == Insert(s, 2, 3, 0, 1, []) == InsertFront(s, 2, 3, q);
  }

  // ---------- which sessions are accepted ----------

  /** The sessions that a history enters, one entry for each packet that is accepted. */
  ghost function Entered(n: nat, history: seq<Arrival>): seq<nat> {
    if history == [] then []
    else
      var log, a := Entered(n, history[..|history| - 1]), history[|history| - 1];
      if a.frag < n && CanEnter(log, a.session) then log + [a.session] else log
  }

  /** A session can be entered if it is the current one or has never been entered. */
  ghost predicate CanEnter(log: seq<nat>, session: nat) {
    session != 0 && (log == [] || log[|log| - 1] == session || session !in log)
  }

  ghost predicate SessionsOk(s: Source, log: seq<nat>) {
    && (s.hasSession <==> log != []) && (log != [] ==> s.session == log[|log| - 1])
    && forall x :: x in s.retired <==> x in log && x != s.session
  }

  /** Whatever has arrived, a session is accepted if and only if it is not 0 and is the current one or has
      never been accepted before. */
  lemma {:induction false} AcceptableExactly(k: nat, n: nat, history: seq<Arrival>, session: nat)
    requires CodeParameters(k, n)
    ensures Acceptable(Run(k, n, history), session) <==> CanEnter(Entered(n, history), session)
  {
    RunSessions(k, n, history);
    hide Run, Entered;
  }

  lemma {:induction false} RunSessions(k: nat, n: nat, history: seq<Arrival>)
    requires CodeParameters(k, n)
    ensures SessionsOk(Run(k, n, history), Entered(n, history))
    decreases |history|
  {
    if history == [] {
      assert Run(k, n, history) == FRESH_SOURCE;
    } else {
      var h, a := history[..|history| - 1], history[|history| - 1];
      RunSessions(k, n, h);
      assert LogOk(Run(k, n, h), k, n);
      assert Run(k, n, history) == Receive(Run(k, n, h), k, n, a.session, a.block, a.frag, a.content);
      hide Run, Receive, LogOk, SessionsOk, CanEnter;
      SessionsStep(Run(k, n, h), k, n, Entered(n, h), a);
    }
  }

  lemma SessionsStep(s: Source, k: nat, n: nat, log: seq<nat>, a: Arrival)
    requires LogOk(s, k, n) && SessionsOk(s, log)
    ensures SessionsOk(Receive(s, k, n, a.session, a.block, a.frag, a.content),
                       if a.frag < n && CanEnter(log, a.session) then log + [a.session] else log)
  {
    var r := Receive(s, k, n, a.session, a.block, a.frag, a.content);
    assert SourceOk(s, k, n);
    ReceiveStep(s, k, n, a.session, a.block, a.frag, a.content);
    RejectedSession(s, k, n, a);
    hide Receive, Extends, SourceOk, LogOk;
    assert Acceptable(s, a.session) <==> CanEnter(log, a.session);
    if a.frag < n && Acceptable(s, a.session) {
      EnterSessions(s, log, a.session);
    }
  }

  lemma EnterSessions(s: Source, log: seq<nat>, session: nat)
    requires SessionsOk(s, log) && Acceptable(s, session)
    ensures SessionsOk(EnterSession(s, session), log + [session])
  {
    var more := log + [session];
    assert forall x :: x in more <==> x in log || x == session;
    assert more[|more| - 1] == session;
  }

  lemma RejectedSession(s: Source, k: nat, n: nat, a: Arrival)
    requires SourceOk(s, k, n)
    ensures !(a.frag < n && Acceptable(s, a.session)) ==> Receive(s, k, n, a.session, a.block, a.frag, a.content) == s
  {}
}
