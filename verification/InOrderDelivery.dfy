/** Blocks that arrive in order, with k distinct fragments of each before the next begins, are
    handed over completely: the i-th entry of the log is the i-th frame. */
module InOrderDelivery {
  import opened Bytes
  import opened GaussJordan
  import opened WireFormat
  import opened Reassembly
  import opened ReassemblyInvariants

  /** The number of a frame, counted through all blocks. */
  function FrameIndex(e: Send, k: nat): nat { e.block * k + e.frag }

  /** The entries are consecutive frames. */
  ghost predicate NumberedFrom(p: seq<Send>, k: nat, first: nat) {
    forall i :: 0 <= i < |p| ==> p[i].frag < k && FrameIndex(p[i], k) == first + i
  }

  /** The log holds every frame from the first on, in order. */
  ghost predicate Gapless(sends: seq<Send>, k: nat) { NumberedFrom(sends, k, 0) }

  lemma NumberedJoin(a: seq<Send>, b: seq<Send>, k: nat, first: nat)
    requires NumberedFrom(a, k, first) && NumberedFrom(b, k, first + |a|)
    ensures NumberedFrom(a + b, k, first)
  {
    hide FrameIndex;
    forall i | 0 <= i < |a + b|
      ensures (a + b)[i].frag < k && FrameIndex((a + b)[i], k) == first + i
    {
      if i >= |a| { assert (a + b)[i] == b[i - |a|]; }
    }
  }

  lemma PrefixIndex(session: nat, q: Slot, k: nat, f: nat, hi: nat)
    requires hi <= k && forall x :: f <= x < hi ==> x in q.frags
    ensures NumberedFrom(Prefix(session, q, k, f, hi), k, q.block * k + f)
  {
    hide Prefix;
  }

  lemma RestIndex(session: nat, q: Slot, k: nat, n: nat, f: nat)
    requires Complete(q, k, n)
    ensures NumberedFrom(SendRest(session, q, k, n, f), k, q.block * k + f)
  {
    hide SendRest, Complete;
  }

  /** Block c is in progress or done, with the fragments `got`; all blocks before it are done. */
  ghost predicate Progress(s: Source, k: nat, c: int, got: set<nat>) {
    && c >= 0 && s.last == c && Gapless(s.sends, k)
    && if |got| < k
       then |s.queue| == 1 && s.queue[0].block == c && s.queue[0].frags.Keys == got
            && |s.sends| == c * k + s.queue[0].toSend
       else s.queue == [] && |s.sends| == (c + 1) * k
  }

  /** Every block up to c is done. */
  ghost predicate DoneUpTo(s: Source, k: nat, c: int) {
    c >= -1 && s.last == c && Gapless(s.sends, k) && s.queue == [] && |s.sends| == (c + 1) * k
  }

  /** The next block begins. */
  lemma OpenProgress(s: Source, k: nat, n: nat, c: int)
    requires SourceOk(s, k, n) && DoneUpTo(s, k, c)
    ensures var r := Open(s, k, c + 1);
            Progress(r, k, c + 1, {}) && r.session == s.session && |r.queue| == 1
  {
    var t := s.(last := c + 1);
    assert PushUpTo(t, k, c + 1, 1, 1) == Push(PushUpTo(t, k, c + 1, 1, 0), k, c + 1);
    assert Open(s, k, c + 1) == PushUpTo(t, k, c + 1, 1, 1);
    hide NumberedFrom;
  }

  /** A fragment of the block in progress. */
  lemma InsertProgress(s: Source, k: nat, n: nat, c: int, got: set<nat>, f: nat, content: seq<Byte>)
    requires SourceOk(s, k, n) && Progress(s, k, c, got) && |got| < k && f < n
    ensures Progress(Insert(s, k, n, 0, f, content), k, c, got + {f})
  {
    var p := s.queue[0];
    if f in p.frags {
      assert got + {f} == got;
    } else {
      var q := Marked(p, f, content);
      MarkOk(p, k, n, f, content);
      assert q.frags.Keys == got + {f} && q.has == |got| + 1 == |got + {f}|;
      hide NumberedFrom, Marked, FlushAll, SendRest, Prefix;
      if q.has == k {
        FinishProgress(s, k, n, c, q);
      } else {
        PrefixProgress(s, k, n, c, q);
      }
    }
  }

  lemma FinishProgress(s: Source, k: nat, n: nat, c: int, q: Slot)
    requires |s.queue| == 1 && MarkedOk(q, k, n) && q.has == k && q.toSend < k && c >= 0
    requires q.block == c && q.toSend == s.queue[0].toSend && Gapless(s.sends, k) && |s.sends| == c * k + q.toSend
    ensures var r := InsertFront(s, k, n, q);
            r.queue == [] && Gapless(r.sends, k) && |r.sends| == (c + 1) * k && r.last == s.last
  {
    hide *;
    var r := FinishedSends(s, k, n, q);
    RestIndex(s.session, q, k, n, q.toSend);
    IsGapless(s.sends, k);
    IsGapless(r.sends, k);
    NumberedJoin(s.sends, SendRest(s.session, q, k, n, q.toSend), k, 0);
    assert c * k + q.toSend + (k - q.toSend) == (c + 1) * k;
  }

  lemma IsGapless(sends: seq<Send>, k: nat)
    ensures Gapless(sends, k) <==> NumberedFrom(sends, k, 0)
  {}

  lemma FinishedSends(s: Source, k: nat, n: nat, q: Slot) returns (r: Source)
    requires |s.queue| == 1 && MarkedOk(q, k, n) && q.has == k
    ensures Complete(q, k, n) && r == InsertFront(s, k, n, q) && r.queue == [] && r.last == s.last
    ensures r.sends == s.sends + SendRest(s.session, q, k, n, q.toSend)
  {
    r := InsertFront(s, k, n, q);
    FinishFront(s, k, n, q);
    FrontOnly(s, k, n, q);
    NothingToFlush(s, k, n, q, q.toSend);
    hide SendRest, FlushAll, InsertFront;
    assert s.sends + [] + SendRest(s.session, q, k, n, q.toSend) == s.sends + SendRest(s.session, q, k, n, q.toSend);
  }

  lemma FrontOnly(s: Source, k: nat, n: nat, q: Slot)
    requires s.queue != [] && MarkedOk(q, k, n)
    ensures InsertFront(s, k, n, q).last == s.last
  {
    hide Prefix, SendRest, FirstMissing;
  }

  lemma PrefixProgress(s: Source, k: nat, n: nat, c: int, q: Slot)
    requires SourceOk(s, k, n) && |s.queue| == 1 && MarkedOk(q, k, n) && q.has < k && c >= 0
    requires q.block == c && q.toSend == s.queue[0].toSend && Gapless(s.sends, k) && |s.sends| == c * k + q.toSend
    ensures var r := InsertFront(s, k, n, q);
            |r.queue| == 1 && r.queue[0] == q.(toSend := r.queue[0].toSend) && r.last == s.last
            && Gapless(r.sends, k) && |r.sends| == c * k + r.queue[0].toSend
  {
    var next := FirstMissing(q.frags, k, q.toSend);
    if next == k { FirstMissingCount(q.frags, k); }
    PrefixIndex(s.session, q, k, q.toSend, next);
    hide Prefix, NumberedFrom, SendRest;
    NumberedJoin(s.sends, Prefix(s.session, q, k, q.toSend, next), k, 0);
  }

  // ---------- histories ----------

  /** The fragments of a block that have arrived. */
  ghost function Arrived(h: seq<Arrival>, block: nat): set<nat> {
    set i | 0 <= i < |h| && h[i].block == block :: h[i].frag
  }

  ghost predicate InOrder(h: seq<Arrival>) {
    forall i, j :: 0 <= i < j < |h| ==> h[i].block <= h[j].block
  }

  /** One session, and fragment numbers below n. */
  ghost predicate OneSession(h: seq<Arrival>, n: nat, session: nat) {
    forall i :: 0 <= i < |h| ==> h[i].session == session && h[i].frag < n
  }

  /** k distinct fragments of every block below c. */
  ghost predicate EnoughBelow(h: seq<Arrival>, k: nat, c: nat) {
    forall b :: 0 <= b < c ==> |Arrived(h, b)| >= k
  }

  lemma ArrivedNext(h: seq<Arrival>, a: Arrival, block: nat)
    ensures Arrived(h + [a], block) == if a.block == block then Arrived(h, block) + {a.frag} else Arrived(h, block)
  {
    var g := h + [a];
    forall x: nat
      ensures x in Arrived(g, block) <==> x in Arrived(h, block) || (a.block == block && x == a.frag)
    {
      if x in Arrived(h, block) {
        var i :| 0 <= i < |h| && h[i].block == block && h[i].frag == x;
        assert g[i] == h[i];
      }
      assert g[|h|] == a;
    }
  }

  /** A block that no arrival belongs to has no fragments. */
  lemma NoneArrived(h: seq<Arrival>, block: nat)
    ensures Arrived(h, block) == {} <==> forall i :: 0 <= i < |h| ==> h[i].block != block
  {
    if i :| 0 <= i < |h| && h[i].block == block { assert h[i].frag in Arrived(h, block); }
  }

  /** The block after which the last arrival comes, and where its fragment goes. */
  lemma HistoryStep(h: seq<Arrival>, a: Arrival, k: nat)
    requires k >= 1 && InOrder(h + [a]) && EnoughBelow(h + [a], k, a.block)
    ensures InOrder(h) && (h == [] ==> a.block == 0)
    ensures h != [] ==>
      var c := h[|h| - 1].block;
      && EnoughBelow(h, k, c)
      && (a.block == c || (a.block == c + 1 && |Arrived(h, c)| >= k && Arrived(h, c + 1) == {}))
  {
    var g := h + [a];
    hide Arrived;
    assert forall i :: 0 <= i < |h| ==> h[i] == g[i];
    assert g[|h|] == a;
    if h == [] {
      NoneArrived(g, 0);
    } else {
      var c := h[|h| - 1].block;
      assert c <= a.block;
      forall b | 0 <= b < a.block
        ensures |Arrived(h, b)| >= k
      {
        ArrivedNext(h, a, b);
      }
      forall i | 0 <= i < |h|
        ensures h[i].block <= c
      {
        if i < |h| - 1 { assert g[i].block <= g[|h| - 1].block; }
      }
      NoneArrived(h, c + 1);
      NoneArrived(g, c + 1);
    }
  }

  /** Another fragment of the current block. */
  lemma SameBlock(s: Source, k: nat, n: nat, c: nat, got: set<nat>, a: Arrival)
    requires SourceOk(s, k, n) && a.session != 0 && a.frag < n && a.block == c && s.hasSession && s.session == a.session
    requires Progress(s, k, c, got)
    ensures Progress(Receive(s, k, n, a.session, a.block, a.frag, a.content), k, c, got + {a.frag})
  {
    hide Insert, Open, Gapless;
    assert EnterSession(s, a.session) == s;
    if |got| < k {
      InsertProgress(s, k, n, c, got, a.frag, a.content);
    } else {
      GrowCard(got, a.frag);
    }
  }

  /** The first fragment of the next block. */
  lemma NextBlock(s: Source, k: nat, n: nat, c: int, a: Arrival)
    requires LogOk(s, k, n) && a.session != 0 && a.frag < n && a.block == c + 1 && (s.hasSession ==> s.session == a.session)
    requires DoneUpTo(s, k, c)
    ensures Progress(Receive(s, k, n, a.session, a.block, a.frag, a.content), k, a.block, {a.frag})
  {
    var t := EnterSession(s, a.session);
    assert t == s.(hasSession := true, session := a.session);
    hide Insert, Open, Gapless;
    OpenProgress(t, k, n, c);
    OpenOk(t, k, n, a.block);
    assert {} + {a.frag} == {a.frag};
    hide LogOk, SlotOk;
    InsertProgress(Open(t, k, a.block), k, n, a.block, {}, a.frag, a.content);
  }

  lemma DoneHere(s: Source, k: nat, c: nat, got: set<nat>)
    requires Progress(s, k, c, got) && |got| >= k
    ensures DoneUpTo(s, k, c)
  {}

  lemma SessionEntered(s: Source, k: nat, n: nat, a: Arrival)
    requires LogOk(s, k, n) && a.session != 0 && a.frag < n && (s.hasSession ==> s.session == a.session)
    ensures var r := Receive(s, k, n, a.session, a.block, a.frag, a.content); r.hasSession && r.session == a.session
  {
    hide Receive, SourceOk;
    ReceiveStep(s, k, n, a.session, a.block, a.frag, a.content);
  }

  lemma GrowCard(got: set<nat>, f: nat)
    ensures |got + {f}| >= |got|
  {
    if f in got { assert got + {f} == got; }
  }

  /** One more arrival of a run in order. */
  lemma OneMore(s: Source, k: nat, n: nat, g: seq<Arrival>, a: Arrival)
    requires LogOk(s, k, n) && a.session != 0 && a.frag < n && InOrder(g + [a]) && EnoughBelow(g + [a], k, a.block)
    requires if g == [] then s == FRESH_SOURCE
             else s.hasSession && s.session == a.session && Progress(s, k, g[|g| - 1].block, Arrived(g, g[|g| - 1].block))
    ensures var r := Receive(s, k, n, a.session, a.block, a.frag, a.content);
            r.hasSession && r.session == a.session && Progress(r, k, a.block, Arrived(g + [a], a.block))
  {
    HistoryStep(g, a, k);
    ArrivedNext(g, a, a.block);
    SessionEntered(s, k, n, a);
    assert {} + {a.frag} == {a.frag};
    hide Receive, Arrived, Progress, DoneUpTo, InOrder, EnoughBelow;
    if g == [] {
      FreshDone(k, n);
      NoneArrived(g, a.block);
      NextBlock(s, k, n, -1, a);
    } else {
      var c := g[|g| - 1].block;
      if a.block == c {
        SameBlock(s, k, n, c, Arrived(g, c), a);
      } else {
        DoneHere(s, k, c, Arrived(g, c));
        NextBlock(s, k, n, c, a);
      }
    }
  }

  /** A run in order is always in the middle of one block, with every earlier block handed over. */
  lemma {:induction false} RunProgress(k: nat, n: nat, session: nat, h: seq<Arrival>)
    requires CodeParameters(k, n) && session != 0 && h != [] && OneSession(h, n, session) && InOrder(h)
    requires EnoughBelow(h, k, h[|h| - 1].block)
    ensures var s, c := Run(k, n, h), h[|h| - 1].block;
            s.hasSession && s.session == session && Progress(s, k, c, Arrived(h, c))
    decreases |h|
  {
    assert k >= 1;
    hide *;
    var g, a := h[..|h| - 1], h[|h| - 1];
    assert h == g + [a];
    HistoryStep(g, a, k);
    OneSessionLast(h, n, session);
    if g != [] {
      RunProgress(k, n, session, g);
    } else {
      FreshDone(k, n);
    }
    RunLast(k, n, h);
    OneMore(Run(k, n, g), k, n, g, a);
  }

  lemma OneSessionLast(h: seq<Arrival>, n: nat, session: nat)
    requires OneSession(h, n, session) && h != []
    ensures OneSession(h[..|h| - 1], n, session) && h[|h| - 1].session == session && h[|h| - 1].frag < n
  {}

  lemma RunLast(k: nat, n: nat, h: seq<Arrival>)
    requires CodeParameters(k, n) && h != []
    ensures var s, a := Run(k, n, h[..|h| - 1]), h[|h| - 1];
            LogOk(s, k, n) && Run(k, n, h) == Receive(s, k, n, a.session, a.block, a.frag, a.content)
  {
    hide Receive;
  }

  lemma FreshDone(k: nat, n: nat)
    requires CodeParameters(k, n)
    ensures Run(k, n, []) == FRESH_SOURCE && DoneUpTo(FRESH_SOURCE, k, -1) && !FRESH_SOURCE.hasSession
  {}
}
