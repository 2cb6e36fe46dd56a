/** What every run of the reassembly keeps: the shape of the ring, and the order of
    everything that is handed to output. */
module ReassemblyInvariants {
  import opened Bytes
  import opened Sequences
  import opened GaussJordan
  import opened WireFormat
  import opened Reassembly

  // ---------- positions in the output order ----------

  /** A place in the output order: block first, then fragment. */
  datatype Place = Key(block: nat, frag: nat)

  predicate Before(a: Place, b: Place) { a.block < b.block || (a.block == b.block && a.frag < b.frag) }

  predicate AtMost(a: Place, b: Place) { a == b || Before(a, b) }

  function SendKey(e: Send): Place { Key(e.block, e.frag) }

  /** The entries belong to one session, lie from lo to below hi, and ascend strictly. */
  ghost predicate Span(more: seq<Send>, session: nat, k: nat, lo: Place, hi: Place) {
    && AtMost(lo, hi)
    && (forall i :: 0 <= i < |more| ==> more[i].session == session && more[i].frag < k && AtMost(lo, SendKey(more[i])) && Before(SendKey(more[i]), hi))
    && (forall i, j :: 0 <= i < j < |more| ==> Before(SendKey(more[i]), SendKey(more[j])))
  }

  lemma SpanJoin(a: seq<Send>, b: seq<Send>, session: nat, k: nat, lo: Place, mid: Place, hi: Place)
    requires Span(a, session, k, lo, mid) && Span(b, session, k, mid, hi)
    ensures Span(a + b, session, k, lo, hi)
  {
    var c := a + b;
    forall i | 0 <= i < |c|
      ensures c[i].session == session && c[i].frag < k && AtMost(lo, SendKey(c[i])) && Before(SendKey(c[i]), hi)
    {
      if i < |a| { assert c[i] == a[i]; } else { assert c[i] == b[i - |a|]; }
    }
    forall i, j | 0 <= i < j < |c|
      ensures Before(SendKey(c[i]), SendKey(c[j]))
    {
      if j < |a| { assert c[i] == a[i] && c[j] == a[j]; }
      else if i < |a| { assert c[i] == a[i] && c[j] == b[j - |a|]; }
      else { assert c[i] == b[i - |a|] && c[j] == b[j - |a|]; }
    }
  }

  lemma SpanWiden(a: seq<Send>, session: nat, k: nat, lo: Place, hi: Place, lo': Place, hi': Place)
    requires Span(a, session, k, lo, hi) && AtMost(lo', lo) && AtMost(hi, hi')
    ensures Span(a, session, k, lo', hi')
  {}

  lemma SpanEmpty(session: nat, k: nat, lo: Place, hi: Place)
    requires AtMost(lo, hi)
    ensures Span([], session, k, lo, hi)
  {}

  lemma SpanOne(e: Send, k: nat)
    requires e.frag < k
    ensures Span([e], e.session, k, SendKey(e), Key(e.block, e.frag + 1))
  {}

  lemma {:induction false} FlushSpan(session: nat, slot: Slot, k: nat, f: nat)
    requires f <= k
    ensures Span(Flush(session, slot, k, f), session, k, Key(slot.block, f), Key(slot.block, k))
    decreases k - f
  {
    hide Span;
    if f == k {
      SpanEmpty(session, k, Key(slot.block, f), Key(slot.block, k));
    } else {
      FlushSpan(session, slot, k, f + 1);
      var e := Send(session, slot.block, f, if f in slot.frags then Padded(slot.frags[f]) else []);
      SpanOne(e, k);
      if f in slot.frags {
        SpanJoin([e], Flush(session, slot, k, f + 1), session, k, Key(slot.block, f), Key(slot.block, f + 1), Key(slot.block, k));
      } else {
        SpanWiden(Flush(session, slot, k, f + 1), session, k, Key(slot.block, f + 1), Key(slot.block, k), Key(slot.block, f), Key(slot.block, k));
        var none: seq<Send> := [];
        assert none + Flush(session, slot, k, f + 1) == Flush(session, slot, k, f + 1);
      }
    }
  }

  /** Consecutive fragments of one block. */
  lemma RunSpan(p: seq<Send>, session: nat, block: nat, k: nat, f: nat)
    requires f + |p| <= k
    requires forall i :: 0 <= i < |p| ==> p[i].session == session && p[i].block == block && p[i].frag == f + i
    ensures Span(p, session, k, Key(block, f), Key(block, f + |p|))
  {}

  lemma PrefixSpan(session: nat, slot: Slot, k: nat, f: nat, hi: nat)
    requires f <= hi <= k && forall x :: f <= x < hi ==> x in slot.frags
    ensures Span(Prefix(session, slot, k, f, hi), session, k, Key(slot.block, f), Key(slot.block, hi))
  {
    hide *;
    RunSpan(Prefix(session, slot, k, f, hi), session, slot.block, k, f);
  }

  lemma SendRestSpan(session: nat, slot: Slot, k: nat, n: nat, f: nat)
    requires Complete(slot, k, n) && f <= k
    ensures Span(SendRest(session, slot, k, n, f), session, k, Key(slot.block, f), Key(slot.block, k))
  {
    hide *;
    RunSpan(SendRest(session, slot, k, n, f), session, slot.block, k, f);
  }

  /** Where the next entry of a session may lie. */
  function Position(s: Source): Place
    requires s.last >= -1
  {
    if s.queue == [] then Key(s.last + 1, 0) else Key(s.queue[0].block, s.queue[0].toSend)
  }

  /** The blocks ascend and only the front one has been sent from. */
  ghost predicate Ascending(q: seq<Slot>, k: nat) {
    && (forall i, j :: 0 <= i < j < |q| ==> q[i].block < q[j].block)
    && (forall i :: 1 <= i < |q| ==> q[i].toSend == 0)
    && (forall i :: 0 <= i < |q| ==> q[i].toSend < k)
  }

  lemma {:induction false} FlushAllSpan(session: nat, q: seq<Slot>, k: nat, next: nat)
    requires k <= 255 && Ascending(q, k) && q != [] && forall i :: 0 <= i < |q| ==> q[i].block < next
    ensures Span(FlushAll(session, q, k), session, k, Key(q[0].block, q[0].toSend), Key(next, 0))
  {
    hide Span;
    FlushSpan(session, q[0], k, q[0].toSend);
    var first, rest := Flush(session, q[0], k, q[0].toSend), FlushAll(session, q[1..], k);
    if |q| == 1 {
      SpanWiden(first, session, k, Key(q[0].block, q[0].toSend), Key(q[0].block, k), Key(q[0].block, q[0].toSend), Key(next, 0));
      assert rest == [] && first + rest == first;
    } else {
      FlushAllSpan(session, q[1..], k, next);
      SpanWiden(first, session, k, Key(q[0].block, q[0].toSend), Key(q[0].block, k), Key(q[0].block, q[0].toSend), Key(q[1].block, 0));
      SpanJoin(first, rest, session, k, Key(q[0].block, q[0].toSend), Key(q[1].block, 0), Key(next, 0));
    }
  }

  // ---------- one step ----------

  /** Where the output stands for a queue; `empty` is the block to expect when there is none. */
  function QueuePosition(q: seq<Slot>, empty: nat): Place {
    if q == [] then Key(empty, 0) else Key(q[0].block, q[0].toSend)
  }

  /** What the step from s to r has handed to output. */
  ghost function Added(s: Source, r: Source): seq<Send> {
    if s.sends <= r.sends then r.sends[|s.sends|..] else r.sends
  }

  lemma AddedJoin(s: Source, a: seq<Send>, r: Source)
    requires r.sends == s.sends + a
    ensures Added(s, r) == a
  {}

  /** The step from s to r hands over entries of s's session that lie from lo to below hi. */
  ghost predicate Extends(s: Source, r: Source, k: nat, lo: Place, hi: Place) {
    s.sends <= r.sends && Span(Added(s, r), s.session, k, lo, hi)
  }

  lemma ExtendsBy(s: Source, a: seq<Send>, r: Source, k: nat, lo: Place, hi: Place)
    requires r.sends == s.sends + a && Span(a, s.session, k, lo, hi)
    ensures Extends(s, r, k, lo, hi)
  {
    AddedJoin(s, a, r);
    hide Span, Added;
  }

  lemma ExtendsNothing(s: Source, r: Source, k: nat, lo: Place, hi: Place)
    requires r.sends == s.sends && AtMost(lo, hi)
    ensures Extends(s, r, k, lo, hi)
  {
    hide Span, Extends;
    SpanEmpty(s.session, k, lo, hi);
    assert r.sends == s.sends + [];
    ExtendsBy(s, [], r, k, lo, hi);
  }

  lemma ExtendsTwice(s: Source, m: Source, r: Source, k: nat, lo: Place, mid: Place, hi: Place)
    requires Extends(s, m, k, lo, mid) && Extends(m, r, k, mid, hi) && s.session == m.session
    ensures Extends(s, r, k, lo, hi)
  {
    SpanJoin(Added(s, m), Added(m, r), s.session, k, lo, mid, hi);
    hide Span;
    assert Added(s, r) == Added(s, m) + Added(m, r);
  }

  /** One push continues the output order. */
  lemma PushSpan(s: Source, k: nat, block: nat, empty: nat)
    requires 1 <= k <= 255 && Ascending(s.queue, k) && |s.queue| <= RING_SIZE
    requires empty <= block && forall i :: 0 <= i < |s.queue| ==> s.queue[i].block < block
    ensures Extends(s, Push(s, k, block), k, QueuePosition(s.queue, empty), QueuePosition(Push(s, k, block).queue, empty))
  {
    var r := Push(s, k, block);
    var lo, hi := QueuePosition(s.queue, empty), QueuePosition(r.queue, empty);
    hide Extends, Span, Flush;
    if |s.queue| < RING_SIZE {
      assert r.sends == s.sends;
      ExtendsNothing(s, r, k, lo, hi);
    } else {
      var q := s.queue[0];
      var a := Flush(s.session, q, k, q.toSend);
      assert r.sends == s.sends + a;
      FlushSpan(s.session, q, k, q.toSend);
      assert r.queue[0] == s.queue[1];
      SpanWiden(a, s.session, k, Key(q.block, q.toSend), Key(q.block, k), lo, hi);
      ExtendsBy(s, a, r, k, lo, hi);
    }
  }

  /** Pushes keep the blocks ascending. */
  lemma PushAscending(s: Source, k: nat, block: nat)
    requires 1 <= k && Ascending(s.queue, k) && |s.queue| <= RING_SIZE
    requires forall i :: 0 <= i < |s.queue| ==> s.queue[i].block < block
    ensures var r := Push(s, k, block);
            && Ascending(r.queue, k) && 0 < |r.queue| <= RING_SIZE
            && (forall i :: 0 <= i < |r.queue| ==> r.queue[i].block < block + 1)
  {
    PushShape(s, k, block);
    hide Push;
  }

  lemma {:induction false} PushUpToAscending(s: Source, k: nat, block: nat, count: nat, i: nat)
    requires 1 <= k && Ascending(s.queue, k) && |s.queue| <= RING_SIZE && i <= count <= block + 1
    requires forall x :: 0 <= x < |s.queue| ==> s.queue[x].block < block + 1 - count
    ensures var r := PushUpTo(s, k, block, count, i);
            && Ascending(r.queue, k) && |r.queue| <= RING_SIZE && r.session == s.session
            && (forall x :: 0 <= x < |r.queue| ==> r.queue[x].block < block + 1 - count + i)
  {
    hide Push, Ascending;
    if i > 0 {
      PushUpToAscending(s, k, block, count, i - 1);
      PushAscending(PushUpTo(s, k, block, count, i - 1), k, block + i - count);
      PushShape(PushUpTo(s, k, block, count, i - 1), k, block + i - count);
    }
  }

  lemma {:induction false} PushUpToSpan(s: Source, k: nat, block: nat, count: nat, i: nat, empty: nat)
    requires 1 <= k <= 255 && Ascending(s.queue, k) && |s.queue| <= RING_SIZE && i <= count <= block + 1
    requires empty <= block + 1 - count && forall x :: 0 <= x < |s.queue| ==> s.queue[x].block < block + 1 - count
    ensures var r := PushUpTo(s, k, block, count, i);
            Extends(s, r, k, QueuePosition(s.queue, empty), QueuePosition(r.queue, empty))
  {
    hide Span, Extends, Push, Ascending, QueuePosition;
    if i == 0 {
      assert PushUpTo(s, k, block, count, 0) == s;
      ExtendsNothing(s, s, k, QueuePosition(s.queue, empty), QueuePosition(s.queue, empty));
    } else {
      PushUpToSpan(s, k, block, count, i - 1, empty);
      PushUpToAscending(s, k, block, count, i - 1);
      var m, r := PushUpTo(s, k, block, count, i - 1), PushUpTo(s, k, block, count, i);
      assert r == Push(m, k, block + i - count);
      hide PushUpTo;
      PushSpan(m, k, block + i - count, empty);
      ExtendsTwice(s, m, r, k, QueuePosition(s.queue, empty), QueuePosition(m.queue, empty), QueuePosition(r.queue, empty));
    }
  }

  /** Opening a new block continues the output order. */
  lemma OpenSpan(s: Source, k: nat, n: nat, block: nat)
    requires SourceOk(s, k, n) && block > s.last
    ensures Open(s, k, block).last >= -1 && Extends(s, Open(s, k, block), k, Position(s), Position(Open(s, k, block)))
  {
    var c := NewBlocks(s, block);
    var t := s.(last := block);
    QueueFits(s, k, n);
    PushUpToSpan(t, k, block, c, c, s.last + 1);
    OpenOk(s, k, n, block);
    hide PushUpTo, Span;
  }

  /** Filling the front slot continues the output order. */
  lemma InsertFrontSpan(s: Source, k: nat, n: nat, q: Slot)
    requires SourceOk(s, k, n) && s.queue != [] && MarkedOk(q, k, n)
    requires q.block == s.queue[0].block && q.toSend == s.queue[0].toSend
    ensures var r := InsertFront(s, k, n, q);
            r.last == s.last && Extends(s, r, k, Position(s), Position(r))
  {
    var r := InsertFront(s, k, n, q);
    var next := FirstMissing(q.frags, k, q.toSend);
    var sent := Prefix(s.session, q, k, q.toSend, next);
    hide Span, Extends, Prefix, SendRest;
    PrefixSpan(s.session, q, k, q.toSend, next);
    if next == k {
      SpanWiden(sent, s.session, k, Position(s), Key(q.block, k), Position(s), Position(r));
      ExtendsBy(s, sent, r, k, Position(s), Position(r));
    } else if q.has == k {
      var b := SendRest(s.session, q, k, n, next);
      SendRestSpan(s.session, q, k, n, next);
      SpanJoin(sent, b, s.session, k, Position(s), Key(q.block, next), Key(q.block, k));
      SpanWiden(sent + b, s.session, k, Position(s), Key(q.block, k), Position(s), Position(r));
      ExtendsBy(s, sent + b, r, k, Position(s), Position(r));
    } else {
      ExtendsBy(s, sent, r, k, Position(s), Position(r));
    }
  }

  /** Completing a slot behind the front continues the output order. */
  lemma InsertBehindSpan(s: Source, k: nat, n: nat, i: nat, q: Slot)
    requires SourceOk(s, k, n) && 0 < i < |s.queue| && MarkedOk(q, k, n)
    requires q.block == s.queue[i].block && q.toSend == 0
    ensures var r := InsertBehind(s, k, n, i, q);
            r.last == s.last && Extends(s, r, k, Position(s), Position(r))
  {
    var r := InsertBehind(s, k, n, i, q);
    hide Span, Extends, FlushAll, SendRest;
    if q.has == k {
      var a, b := FlushAll(s.session, s.queue[..i], k), SendRest(s.session, q, k, n, 0);
      FlushAllSpan(s.session, s.queue[..i], k, q.block);
      SendRestSpan(s.session, q, k, n, 0);
      SpanJoin(a, b, s.session, k, Position(s), Key(q.block, 0), Key(q.block, k));
      SpanWiden(a + b, s.session, k, Position(s), Key(q.block, k), Position(s), Position(r));
      ExtendsBy(s, a + b, r, k, Position(s), Position(r));
    } else {
      ExtendsNothing(s, r, k, Position(s), Position(r));
    }
  }

  lemma InsertSpan(s: Source, k: nat, n: nat, i: nat, frag: nat, content: seq<Byte>)
    requires SourceOk(s, k, n) && i < |s.queue| && frag < n
    ensures var r := Insert(s, k, n, i, frag, content);
            r.last == s.last && Extends(s, r, k, Position(s), Position(r))
  {
    hide InsertFront, InsertBehind, Extends;
    if frag in s.queue[i].frags {
      ExtendsNothing(s, s, k, Position(s), Position(s));
    } else {
      MarkOk(s.queue[i], k, n, frag, content);
      var q := Marked(s.queue[i], frag, content);
      if i == 0 { InsertFrontSpan(s, k, n, q); } else { InsertBehindSpan(s, k, n, i, q); }
    }
  }

  /** Filling a slot keeps the ring valid. */
  lemma InsertOk(s: Source, k: nat, n: nat, i: nat, frag: nat, content: seq<Byte>)
    requires SourceOk(s, k, n) && i < |s.queue| && frag < n
    ensures var r := Insert(s, k, n, i, frag, content);
            SourceOk(r, k, n) && r == s.(queue := r.queue, sends := r.sends)
  {
    if frag !in s.queue[i].frags {
      MarkOk(s.queue[i], k, n, frag, content);
      var q := Marked(s.queue[i], frag, content);
      if i == 0 { InsertFrontOk(s, k, n, q); } else { InsertBehindOk(s, k, n, i, q); }
      hide InsertFront, InsertBehind;
    }
  }

  lemma InsertFrontOk(s: Source, k: nat, n: nat, q: Slot)
    requires SourceOk(s, k, n) && s.queue != [] && MarkedOk(q, k, n) && q.block == s.queue[0].block
    ensures var r := InsertFront(s, k, n, q);
            SourceOk(r, k, n) && r == s.(queue := r.queue, sends := r.sends)
  {
    hide Prefix, SendRest;
  }

  lemma InsertBehindOk(s: Source, k: nat, n: nat, i: nat, q: Slot)
    requires SourceOk(s, k, n) && 0 < i < |s.queue| && MarkedOk(q, k, n) && q.block == s.queue[i].block && q.toSend == 0
    ensures var r := InsertBehind(s, k, n, i, q);
            SourceOk(r, k, n) && r == s.(queue := r.queue, sends := r.sends)
  {
    hide FlushAll, SendRest;
  }

  // ---------- completion ----------

  /** Sending what is contiguous and then the rest is sending everything from there on. */
  lemma {:induction false} PrefixThenRest(session: nat, slot: Slot, k: nat, n: nat, f: nat, next: nat)
    requires Complete(slot, k, n) && f <= next <= k && forall x :: f <= x < next ==> x in slot.frags
    ensures Prefix(session, slot, k, f, next) + SendRest(session, slot, k, n, next) == SendRest(session, slot, k, n, f)
    decreases next - f
  {
    if f < next {
      PrefixThenRest(session, slot, k, n, f + 1, next);
      hide Buffer;
      assert Buffer(slot, k, n, f) == Padded(slot.frags[f]) by { ReceivedBuffer(slot, k, n, f); }
    }
  }

  lemma ReceivedBuffer(slot: Slot, k: nat, n: nat, f: nat)
    requires Complete(slot, k, n) && f < k && f in slot.frags
    ensures Buffer(slot, k, n, f) == Padded(slot.frags[f])
  {}

  /** The step that finishes slot i: older blocks flushed, every remaining primary fragment handed over. */
  ghost predicate Finished(s: Source, r: Source, k: nat, n: nat, i: nat, q: Slot)
    requires i < |s.queue| && Complete(q, k, n)
  {
    && r.queue == s.queue[i + 1..]
    && r.sends == s.sends + FlushAll(s.session, s.queue[..i], k) + SendRest(s.session, q, k, n, q.toSend)
  }

  lemma FinishFront(s: Source, k: nat, n: nat, q: Slot)
    requires s.queue != [] && MarkedOk(q, k, n) && q.has == k
    ensures Complete(q, k, n) && Finished(s, InsertFront(s, k, n, q), k, n, 0, q)
  {
    hide SendRest, Prefix, FlushAll, FirstMissing;
    var next := FirstMissing(q.frags, k, q.toSend);
    var sent, rest := Prefix(s.session, q, k, q.toSend, next), SendRest(s.session, q, k, n, next);
    NothingToFlush(s, k, n, q, next);
    PrefixThenRest(s.session, q, k, n, q.toSend, next);
    NoneRight(s.sends);
    NoneRight(sent);
    hide MarkedOk, Complete;
  }

  lemma FinishBehind(s: Source, k: nat, n: nat, i: nat, q: Slot)
    requires i < |s.queue| && MarkedOk(q, k, n) && q.has == k
    ensures Complete(q, k, n) && Finished(s, InsertBehind(s, k, n, i, q), k, n, i, q)
  {
    var a, b := FlushAll(s.session, s.queue[..i], k), SendRest(s.session, q, k, n, q.toSend);
    hide SendRest, FlushAll;
    assert s.sends + (a + b) == s.sends + a + b;
  }

  /** Before its k-th fragment a block stays in the ring. */
  lemma KeepFront(s: Source, k: nat, n: nat, q: Slot)
    requires s.queue != [] && MarkedOk(q, k, n) && q.has < k
    ensures var r := InsertFront(s, k, n, q);
            |r.queue| == |s.queue| && r.queue[0].frags == q.frags && r.queue[0].block == q.block
  {
    hide Prefix, SendRest;
    if FirstMissing(q.frags, k, q.toSend) == k { FirstMissingCount(q.frags, k); }
  }

  /** The arrival of the k-th distinct fragment flushes the older blocks, hands over every
      remaining primary fragment of this one, and takes it out of the ring; before the k-th,
      the block stays. */
  lemma KthFragment(s: Source, k: nat, n: nat, i: nat, frag: nat, content: seq<Byte>)
    requires SourceOk(s, k, n) && i < |s.queue| && frag < n && frag !in s.queue[i].frags
    ensures var p, q, r := s.queue[i], Marked(s.queue[i], frag, content), Insert(s, k, n, i, frag, content);
            if |p.frags| == k - 1
            then Complete(q, k, n) && Finished(s, r, k, n, i, q) && Find(r.queue, p.block) == |r.queue|
            else |r.queue| == |s.queue| && r.queue[i].block == p.block && r.queue[i].frags == p.frags[frag := content]
  {
    var p := s.queue[i];
    var q := Marked(p, frag, content);
    MarkOk(p, k, n, frag, content);
    assert q.has == |p.frags| + 1 && q.frags == p.frags[frag := content] && q.block == p.block;
    hide Marked, InsertFront;
    if q.has == k {
      NotBehind(s, k, n, i);
      if i == 0 { FinishFront(s, k, n, q); } else { FinishBehind(s, k, n, i, q); }
    } else if i == 0 {
      KeepFront(s, k, n, q);
    }
  }

  lemma NotBehind(s: Source, k: nat, n: nat, i: nat)
    requires SourceOk(s, k, n) && i < |s.queue|
    ensures Find(s.queue[i + 1..], s.queue[i].block) == |s.queue[i + 1..]|
  {
    var rest := s.queue[i + 1..];
    forall x | 0 <= x < |rest|
      ensures rest[x].block != s.queue[i].block
    {
      assert rest[x] == s.queue[i + 1 + x];
    }
  }

  lemma NothingToFlush(s: Source, k: nat, n: nat, q: Slot, next: nat)
    requires Complete(q, k, n) && q.toSend <= next <= k && forall x :: q.toSend <= x < next ==> x in q.frags
    ensures FlushAll(s.session, s.queue[..0], k) == []
    ensures next == k ==> SendRest(s.session, q, k, n, next) == []
  {}

  /** Fewer than k fragments cannot include all k primary ones. */
  lemma FirstMissingCount(frags: map<nat, seq<Byte>>, k: nat)
    requires forall x :: 0 <= x < k ==> x in frags
    ensures |frags| >= k
  {
    BelowCount(k);
    Contained(Below(k), frags.Keys);
  }

  lemma Contained<T>(a: set<T>, b: set<T>)
    requires a <= b
    ensures |a| <= |b|
  {
    assert |b - a| == |b| - |a|;
  }

  // ---------- any arrival ----------

  /** Reception keeps the ring valid and, within a session, continues the output order. */
  lemma ReceiveStep(s: Source, k: nat, n: nat, session: nat, block: nat, frag: nat, content: seq<Byte>)
    requires SourceOk(s, k, n)
    ensures var r := Receive(s, k, n, session, block, frag, content);
            && SourceOk(r, k, n)
            && var t := if frag < n && Acceptable(s, session) then EnterSession(s, session) else s;
               && r == t.(queue := r.queue, last := r.last, sends := r.sends)
               && Extends(t, r, k, Position(t), Position(r))
  {
    hide Insert, Open, Extends;
    if frag >= n || !Acceptable(s, session) {
      ExtendsNothing(s, s, k, Position(s), Position(s));
    } else {
      var t := EnterSession(s, session);
      var i := Find(t.queue, block);
      if i < |t.queue| {
        InsertSpan(t, k, n, i, frag, content);
        InsertOk(t, k, n, i, frag, content);
      } else if block <= t.last {
        ExtendsNothing(t, t, k, Position(t), Position(t));
      } else {
        var m := Open(t, k, block);
        OpenOk(t, k, n, block);
        OpenSpan(t, k, n, block);
        InsertSpan(m, k, n, |m.queue| - 1, frag, content);
        InsertOk(m, k, n, |m.queue| - 1, frag, content);
        var r := Insert(m, k, n, |m.queue| - 1, frag, content);
        ExtendsTwice(t, m, r, k, Position(t), Position(m), Position(r));
      }
    }
  }

  /** What holds between arrivals: the ring is valid, the log is in order, and only the
      current session, which is not retired, can add to it. */
  ghost predicate LogOk(s: Source, k: nat, n: nat) {
    && SourceOk(s, k, n)
    && (!s.hasSession ==> s.sends == [] && s.retired == {} && s.queue == [] && s.last == -1)
    && (s.hasSession ==> s.session !in s.retired)
    && (forall i :: 0 <= i < |s.sends| ==> s.sends[i].frag < k && (s.sends[i].session in s.retired || s.sends[i].session == s.session))
    && (forall i :: 0 <= i < |s.sends| ==> s.sends[i].session == s.session ==> Before(SendKey(s.sends[i]), Position(s)))
    && (forall i, j :: 0 <= i < j < |s.sends| && s.sends[i].session == s.sends[j].session ==> Before(SendKey(s.sends[i]), SendKey(s.sends[j])))
  }

  lemma FreshOk(k: nat, n: nat)
    requires CodeParameters(k, n)
    ensures LogOk(FRESH_SOURCE, k, n)
  {}

  lemma EnterOk(s: Source, k: nat, n: nat, session: nat)
    requires LogOk(s, k, n) && Acceptable(s, session)
    ensures LogOk(EnterSession(s, session), k, n)
  {
    var t := EnterSession(s, session);
    assert t.sends == s.sends;
  }

  lemma LogExtends(t: Source, r: Source, k: nat, n: nat)
    requires LogOk(t, k, n) && SourceOk(r, k, n) && Extends(t, r, k, Position(t), Position(r))
    requires r == t.(queue := r.queue, last := r.last, sends := r.sends)
    requires t.hasSession || r.sends == t.sends
    requires !t.hasSession ==> r == t
    ensures LogOk(r, k, n)
  {
    var a := Added(t, r);
    assert r.sends == t.sends + a;
    forall i | 0 <= i < |r.sends|
      ensures r.sends[i] == if i < |t.sends| then t.sends[i] else a[i - |t.sends|]
    {
    }
    forall i | 0 <= i < |r.sends|
      ensures r.sends[i].frag < k && (r.sends[i].session in r.retired || r.sends[i].session == r.session)
      ensures r.sends[i].session == r.session ==> Before(SendKey(r.sends[i]), Position(r))
    {
      if i >= |t.sends| { assert r.sends[i] == a[i - |t.sends|]; }
    }
    forall i, j | 0 <= i < j < |r.sends| && r.sends[i].session == r.sends[j].session
      ensures Before(SendKey(r.sends[i]), SendKey(r.sends[j]))
    {
      if i >= |t.sends| { assert r.sends[i] == a[i - |t.sends|] && r.sends[j] == a[j - |t.sends|]; }
      else if j >= |t.sends| { assert r.sends[j] == a[j - |t.sends|]; }
    }
  }

  /** What an accepted arrival adds belongs to the session it enters. */
  lemma AcceptedKeepsLog(t: Source, r: Source, s: Source, k: nat, n: nat)
    requires LogOk(t, k, n) && t.hasSession && t.sends == s.sends && s.retired <= t.retired && t.session !in t.retired
    requires SourceOk(r, k, n) && r == t.(queue := r.queue, last := r.last, sends := r.sends)
    requires Extends(t, r, k, Position(t), Position(r))
    ensures LogOk(r, k, n) && s.sends <= r.sends && s.retired <= r.retired
    ensures forall i :: |s.sends| <= i < |r.sends| ==> r.sends[i].session == r.session && r.session !in r.retired
  {
    LogExtends(t, r, k, n);
    hide LogOk, SourceOk;
    forall i | |s.sends| <= i < |r.sends|
      ensures r.sends[i].session == r.session
    {
      assert r.sends[i] == Added(t, r)[i - |s.sends|];
    }
  }

  lemma Entering(s: Source, k: nat, n: nat, session: nat)
    requires LogOk(s, k, n) && Acceptable(s, session)
    ensures var t := EnterSession(s, session);
            LogOk(t, k, n) && t.hasSession && t.sends == s.sends && s.retired <= t.retired && t.session !in t.retired
  {
    EnterOk(s, k, n, session);
  }

  /** Every arrival keeps `LogOk`; sessions, once retired, stay so and stay silent. */
  lemma ReceiveKeepsLog(s: Source, k: nat, n: nat, session: nat, block: nat, frag: nat, content: seq<Byte>)
    requires LogOk(s, k, n)
    ensures var r := Receive(s, k, n, session, block, frag, content);
            && LogOk(r, k, n) && s.sends <= r.sends && s.retired <= r.retired
            && (forall i :: |s.sends| <= i < |r.sends| ==> r.sends[i].session == r.session && r.session !in r.retired)
  {
    assert SourceOk(s, k, n);
    hide *;
    ReceiveStep(s, k, n, session, block, frag, content);
    if frag < n && Acceptable(s, session) {
      Entering(s, k, n, session);
      AcceptedKeepsLog(EnterSession(s, session), Receive(s, k, n, session, block, frag, content), s, k, n);
    } else {
      RejectedSame(s, k, n, session, block, frag, content);
    }
  }

  lemma RejectedSame(s: Source, k: nat, n: nat, session: nat, block: nat, frag: nat, content: seq<Byte>)
    requires SourceOk(s, k, n) && (frag >= n || !Acceptable(s, session))
    ensures Receive(s, k, n, session, block, frag, content) == s
  {}

  // ---------- runs ----------

  datatype Arrival = Arrival(session: nat, block: nat, frag: nat, content: seq<Byte>)

  /** The source after a history of arrivals. */
  ghost function Run(k: nat, n: nat, history: seq<Arrival>): (s: Source)
    requires CodeParameters(k, n)
    ensures LogOk(s, k, n)
    decreases |history|
  {
    if history == [] then
      FreshOk(k, n);
      FRESH_SOURCE
    else
      var a := history[|history| - 1];
      var s := Run(k, n, history[..|history| - 1]);
      ReceiveKeepsLog(s, k, n, a.session, a.block, a.frag, a.content);
      Receive(s, k, n, a.session, a.block, a.frag, a.content)
  }

  /** Over any history, nothing is handed to output twice, and within a session blocks and
      fragments ascend. */
  lemma RunOrdered(k: nat, n: nat, history: seq<Arrival>, i: nat, j: nat)
    requires CodeParameters(k, n) && i < j < |Run(k, n, history).sends|
    ensures var a, b := Run(k, n, history).sends[i], Run(k, n, history).sends[j];
            && (a.session == b.session ==> a.block < b.block || (a.block == b.block && a.frag < b.frag))
            && (a.session, a.block, a.frag) != (b.session, b.block, b.frag)
  {
    hide Run;
    var s := Run(k, n, history);
    assert LogOk(s, k, n);
  }

  lemma {:induction false} RunGrows(k: nat, n: nat, history: seq<Arrival>, i: nat)
    requires CodeParameters(k, n) && i <= |history|
    ensures Run(k, n, history[..i]).sends <= Run(k, n, history).sends
    ensures Run(k, n, history[..i]).retired <= Run(k, n, history).retired
    ensures forall x :: |Run(k, n, history[..i]).sends| <= x < |Run(k, n, history).sends| ==>
              Run(k, n, history).sends[x].session !in Run(k, n, history[..i]).retired
    decreases |history|
  {
    if i == |history| {
      assert history[..i] == history;
    } else {
      var h, a := history[..|history| - 1], history[|history| - 1];
      RunGrows(k, n, h, i);
      assert h[..i] == history[..i];
      var s, r := Run(k, n, h), Run(k, n, history);
      assert r == Receive(s, k, n, a.session, a.block, a.frag, a.content);
      ReceiveKeepsLog(s, k, n, a.session, a.block, a.frag, a.content);
      hide Run, Receive;
    }
  }

  /** A session that has been superseded never hands anything to output again. */
  lemma SupersededSilent(k: nat, n: nat, history: seq<Arrival>, i: nat, session: nat)
    requires CodeParameters(k, n) && i <= |history| && session in Run(k, n, history[..i]).retired
    ensures forall x :: |Run(k, n, history[..i]).sends| <= x < |Run(k, n, history).sends| ==>
              Run(k, n, history).sends[x].session != session
  {
    hide Run;
    RunGrows(k, n, history, i);
  }
}
