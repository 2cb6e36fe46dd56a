/** What every step of a KCP endpoint has to do: acknowledge what arrives, drop what is acknowledged, send
    what is numbered for the first time, fill the window, and pass on what is in order. */
module KcpProgress {
  import opened Bytes
  import opened KcpEndpoint
  import opened KcpBuffers
  import opened KcpNoLoss
  import opened KcpRuns

  // ---------- a segment that arrives ----------

  /** The send buffer is in order and inside the window. */
  ghost predicate BufferOk(e: Endpoint) {
    e.una <= e.nxt && Ascending(e.sndBuf) && forall s: Seg :: s in e.sndBuf ==> e.una <= s.sn < e.nxt
  }

  /** Data inside or before the receive window. */
  predicate InWindow(e: Endpoint, w: Wire) { w.cmd == Push && w.sn < e.rcv + e.rcvWnd }

  /** Exactly the data inside or before the window, repeated data included, is acknowledged, with its
      number and its time. */
  lemma InputAcks(e: Endpoint, w: Wire)
    ensures Input(e, w).acks == e.acks + if InWindow(e, w) then [Pending(w.sn, w.ts)] else []
  {
    hide DropBelow, Without, Ready, Insert;
  }

  /** Exactly what the peer has reported leaves the send buffer: what is below una, and the acknowledged
      number. */
  lemma InputSender(e: Endpoint, w: Wire)
    requires BufferOk(e)
    ensures var r := Input(e, w);
            && BufferOk(r) && r.nxt == e.nxt && r.sndQueue == e.sndQueue && r.rmtWnd == w.wnd
            && r.ask == e.ask && r.tell == (e.tell || w.cmd == Wask)
            && r.una == (if r.sndBuf == [] then e.nxt else r.sndBuf[0].sn)
            && forall s: Seg :: s in r.sndBuf <==> s in e.sndBuf && s.sn >= w.una && !(w.cmd == Ack && s.sn == w.sn)
  {
    InputParts(e, w);
    DropBelowExact(e.sndBuf, w.una);
    var below := DropBelow(e.sndBuf, w.una);
    WithoutExact(below, w.sn);
    FirstLeast(below);
    FirstLeast(Input(e, w).sndBuf);
    hide DropBelow, Without, Input, Ascending;
  }

  lemma InputParts(e: Endpoint, w: Wire)
    ensures var r, below := Input(e, w), DropBelow(e.sndBuf, w.una);
            var una := if below == [] then e.nxt else below[0].sn;
            && r.nxt == e.nxt && r.sndQueue == e.sndQueue && r.rmtWnd == w.wnd && r.ask == e.ask && r.tell == (e.tell || w.cmd == Wask)
            && r.una == (if r.sndBuf == [] then e.nxt else r.sndBuf[0].sn)
            && r.sndBuf == if w.cmd == Ack && una <= w.sn < e.nxt then Without(below, w.sn) else below
  {
    hide DropBelow, Without, Ready, Insert;
  }

  lemma FirstLeast(buf: seq<Seg>)
    requires Ascending(buf)
    ensures forall s: Seg :: s in buf ==> buf[0].sn <= s.sn
    ensures buf != [] ==> buf[0] in buf
  {
    forall s: Seg | s in buf
      ensures buf[0].sn <= s.sn
    {
      var i :| 0 <= i < |buf| && buf[i] == s;
    }
  }

  /** The next segment does not wait in the buffer while there is room in the queue. */
  predicate PassedOn(e: Endpoint) {
    e.rcvBuf == [] || e.rcvBuf[0].sn != e.rcv || |e.rcvQueue| >= e.rcvWnd
  }

  lemma MoveReadyPasses(e: Endpoint)
    ensures PassedOn(MoveReady(e))
    ensures MoveReady(e).rcvQueue + MoveReady(e).rcvBuf == e.rcvQueue + e.rcvBuf
  {
    var r := Ready(e.rcvBuf, e.rcv, Room(e));
    ReadyRun(e.rcvBuf, e.rcv, Room(e));
    SplitJoin(e.rcvQueue, e.rcvBuf, r);
    hide Ready;
  }

  lemma SplitJoin<T>(queue: seq<T>, buf: seq<T>, r: nat)
    requires r <= |buf|
    ensures queue + buf[..r] + buf[r..] == queue + buf
  {
    assert buf[..r] + buf[r..] == buf;
  }

  /** New data in the window is kept, and nothing else comes in or gets lost. */
  lemma InputReceiver(e: Endpoint, w: Wire)
    requires Ascending(e.rcvBuf) && PassedOn(e)
    ensures var r := Input(e, w);
            && PassedOn(r) && r.rcvWnd == e.rcvWnd
            && forall s: Seg :: (s in r.rcvQueue || s in r.rcvBuf) <==>
                 s in e.rcvQueue || s in e.rcvBuf
                 || (w.cmd == Push && e.rcv <= w.sn < e.rcv + e.rcvWnd && !HasNumber(e.rcvBuf, w.sn) && s == Seg(w.sn, w.frg, w.data))
  {
    var seg := Seg(w.sn, w.frg, w.data);
    InsertExact(e.rcvBuf, seg);
    var r, a := Input(e, w), Shrink(ParseUna(e.(rmtWnd := w.wnd), w.una));
    if w.cmd == Push && e.rcv <= w.sn < e.rcv + e.rcvWnd {
      var m := a.(acks := a.acks + [Pending(w.sn, w.ts)], rcvBuf := Insert(e.rcvBuf, seg));
      assert r == MoveReady(m) by { hide DropBelow, Ready, Insert; }
      MoveReadyPasses(m);
      hide DropBelow, Insert, Input, MoveReady;
      forall s: Seg
        ensures (s in r.rcvQueue || s in r.rcvBuf) <==> s in e.rcvQueue || s in m.rcvBuf
      {
        assert s in r.rcvQueue + r.rcvBuf <==> s in m.rcvQueue + m.rcvBuf;
      }
      assert r.rcvWnd == e.rcvWnd by { MoveReadyWindow(m); }
    } else {
      assert r.rcvBuf == e.rcvBuf && r.rcvQueue == e.rcvQueue && r.rcv == e.rcv && r.rcvWnd == e.rcvWnd by { hide DropBelow, Without, Ready, Insert; }
    }
  }

  lemma MoveReadyWindow(e: Endpoint)
    ensures MoveReady(e).rcvWnd == e.rcvWnd
  {}

  // ---------- a flush ----------

  /** What the peer may still send. */
  function WindowLeft(e: Endpoint): nat { if |e.rcvQueue| < e.rcvWnd then e.rcvWnd - |e.rcvQueue| else 0 }

  /** The segments of one kind, in order. */
  function OfKind(ws: seq<Wire>, cmd: Cmd): seq<Wire> {
    if ws == [] then []
    else OfKind(ws[..|ws| - 1], cmd) + if ws[|ws| - 1].cmd == cmd then [ws[|ws| - 1]] else []
  }

  lemma {:induction false} OfKindJoin(a: seq<Wire>, b: seq<Wire>, cmd: Cmd)
    ensures OfKind(a + b, cmd) == OfKind(a, cmd) + OfKind(b, cmd)
  {
    if b == [] {
      assert a + b == a;
    } else {
      assert (a + b)[..|a + b| - 1] == a + b[..|b| - 1];
      OfKindJoin(a, b[..|b| - 1], cmd);
    }
  }

  lemma {:induction false} OfOneKind(ws: seq<Wire>, kind: Cmd, cmd: Cmd)
    requires forall i :: 0 <= i < |ws| ==> ws[i].cmd == kind
    ensures OfKind(ws, cmd) == if cmd == kind then ws else []
  {
    if ws != [] {
      var init, last := ws[..|ws| - 1], ws[|ws| - 1];
      OfOneKind(init, kind, cmd);
      OfKindLast(ws, cmd);
      hide *;
      assert init + [last] == ws;
    }
  }

  lemma OfKindLast(ws: seq<Wire>, cmd: Cmd)
    requires ws != []
    ensures var init, last := ws[..|ws| - 1], ws[|ws| - 1];
            OfKind(ws, cmd) == if last.cmd == cmd then OfKind(init, cmd) + [last] else OfKind(init, cmd)
  {
    var rest := OfKind(ws[..|ws| - 1], cmd);
    assert rest + [] == rest;
  }

  /** The segment as it goes on the wire. */
  function DataWire(e: Endpoint, now: nat, s: Seg): Wire { Wire(Push, s.frg, WindowLeft(e), now, s.sn, e.rcv, s.data) }

  /** How the send buffer and the queue change: as many segments as the window allows are numbered, in
      their order. */
  lemma FlushFills(e: Endpoint, t: Timing)
    ensures var r, m := AfterFlush(e, t), AfterFlush(e, t).nxt - e.nxt;
            && 0 <= m <= |e.sndQueue| && r.sndQueue == e.sndQueue[m..]
            && (m > 0 ==> r.nxt <= e.una + t.cwnd) && (r.sndQueue == [] || r.nxt >= e.una + t.cwnd)
            && |r.sndBuf| == |e.sndBuf| + m && r.sndBuf[..|e.sndBuf|] == e.sndBuf
            && (forall i :: 0 <= i < m ==> r.sndBuf[|e.sndBuf| + i] == e.sndQueue[i].(sn := e.nxt + i))
            && r.acks == [] && !r.ask && !r.tell && r == e.(acks := [], ask := false, tell := false, nxt := r.nxt,
                                                            sndBuf := r.sndBuf, sndQueue := r.sndQueue)
  {}

  /** Every pending acknowledgement is sent, in order, with its number and its time; the peer is asked for
      its window exactly when that is pending or due, and told about ours exactly when it has asked. */
  lemma FlushAcks(e: Endpoint, t: Timing)
    ensures var f := Flushed(e, t);
            && |OfKind(f, Ack)| == |e.acks|
            && (forall i :: 0 <= i < |e.acks| ==> OfKind(f, Ack)[i] == Wire(Ack, 0, WindowLeft(e), e.acks[i].ts, e.acks[i].sn, e.rcv, []))
            && |OfKind(f, Wask)| == (if e.ask || (e.rmtWnd == 0 && t.probe) then 1 else 0)
            && |OfKind(f, Wins)| == (if e.tell then 1 else 0)
            && forall w :: w in f ==> w.wnd == WindowLeft(e) && w.una == e.rcv
  {
    FlushKinds(e, t, Ack);
    FlushKinds(e, t, Wask);
    FlushKinds(e, t, Wins);
    ProbeKinds(e, t);
    hide Flushed, OfKind, Probes;
    forall w | w in Flushed(e, t)
      ensures w.wnd == WindowLeft(e) && w.una == e.rcv
    {
      FlushHeader(e, t, w);
    }
  }

  lemma FlushHeader(e: Endpoint, t: Timing, w: Wire)
    requires w in Flushed(e, t)
    ensures w.wnd == WindowLeft(e) && w.una == e.rcv
  {
    if w in DataOf(e, t) { PushesAre(e, t, |AfterFlush(e, t).sndBuf|, w); }
    hide AfterFlush;
  }

  function DataOf(e: Endpoint, t: Timing): seq<Wire> {
    Pushes(AfterFlush(e, t).sndBuf, t.due, Room(e), e.rcv, t.now, |AfterFlush(e, t).sndBuf|)
  }

  lemma FlushKinds(e: Endpoint, t: Timing, cmd: Cmd)
    ensures OfKind(Flushed(e, t), cmd) == if cmd == Ack then AckWires(e.acks, Room(e), e.rcv)
                                          else if cmd == Push then DataOf(e, t) else OfKind(Probes(e, t), cmd)
  {
    var a, p, d := AckWires(e.acks, Room(e), e.rcv), Probes(e, t), DataOf(e, t);
    FlushedParts(e, t);
    DataKind(e, t);
    ProbeKinds(e, t);
    hide *;
    OfKindJoin(a + p, d, cmd);
    OfKindJoin(a, p, cmd);
    OfOneKind(a, Ack, cmd);
    OfOneKind(d, Push, cmd);
    assert a + [] == a && [] + d == d && a + OfKind(p, cmd) + [] == a + OfKind(p, cmd) && [] + OfKind(p, cmd) == OfKind(p, cmd);
  }

  lemma FlushedParts(e: Endpoint, t: Timing)
    ensures Flushed(e, t) == AckWires(e.acks, Room(e), e.rcv) + Probes(e, t) + DataOf(e, t)
  {}

  lemma DataKind(e: Endpoint, t: Timing)
    ensures forall i :: 0 <= i < |DataOf(e, t)| ==> DataOf(e, t)[i].cmd == Push
  {
    forall i | 0 <= i < |DataOf(e, t)|
      ensures DataOf(e, t)[i].cmd == Push
    {
      PushesAre(e, t, |AfterFlush(e, t).sndBuf|, DataOf(e, t)[i]);
    }
  }

  lemma ProbeKinds(e: Endpoint, t: Timing)
    ensures OfKind(Probes(e, t), Ack) == [] && OfKind(Probes(e, t), Push) == []
    ensures |OfKind(Probes(e, t), Wask)| == if e.ask || (e.rmtWnd == 0 && t.probe) then 1 else 0
    ensures |OfKind(Probes(e, t), Wins)| == if e.tell then 1 else 0
  {
    var a, b := Ask(e, t), Tell(e);
    ProbesParts(e, t);
    hide *;
    ProbesKind(a, b, Ack);
    ProbesKind(a, b, Push);
    ProbesKind(a, b, Wask);
    ProbesKind(a, b, Wins);
  }

  function Ask(e: Endpoint, t: Timing): seq<Wire> { if Asks(e, t) then [ProbeWire(e, Wask)] else [] }

  function Tell(e: Endpoint): seq<Wire> { if e.tell then [ProbeWire(e, Wins)] else [] }

  lemma ProbesParts(e: Endpoint, t: Timing)
    ensures Probes(e, t) == Ask(e, t) + Tell(e)
    ensures |Ask(e, t)| == (if e.ask || (e.rmtWnd == 0 && t.probe) then 1 else 0) && |Tell(e)| == if e.tell then 1 else 0
    ensures (forall i :: 0 <= i < |Ask(e, t)| ==> Ask(e, t)[i].cmd == Wask) && forall i :: 0 <= i < |Tell(e)| ==> Tell(e)[i].cmd == Wins
  {}

  lemma ProbesKind(a: seq<Wire>, b: seq<Wire>, cmd: Cmd)
    requires (forall i :: 0 <= i < |a| ==> a[i].cmd == Wask) && forall i :: 0 <= i < |b| ==> b[i].cmd == Wins
    ensures OfKind(a + b, cmd) == if cmd == Wask then a else if cmd == Wins then b else []
  {
    hide *;
    OfKindJoin(a, b, cmd);
    OfOneKind(a, Wask, cmd);
    OfOneKind(b, Wins, cmd);
    assert a + [] == a && [] + b == b;
  }

  lemma {:induction false} PushesAre(e: Endpoint, t: Timing, i: nat, w: Wire)
    requires i <= |AfterFlush(e, t).sndBuf| && w in Pushes(AfterFlush(e, t).sndBuf, t.due, Room(e), e.rcv, t.now, i)
    ensures exists j :: 0 <= j < i && w == DataWire(e, t.now, AfterFlush(e, t).sndBuf[j])
    ensures w.cmd == Push && w.wnd == WindowLeft(e) && w.una == e.rcv
  {
    hide AfterFlush;
    if w in Pushes(AfterFlush(e, t).sndBuf, t.due, Room(e), e.rcv, t.now, i - 1) {
      PushesAre(e, t, i - 1, w);
    } else {
      assert w == DataWire(e, t.now, AfterFlush(e, t).sndBuf[i - 1]);
    }
  }

  lemma {:induction false} PushesHave(e: Endpoint, buf: seq<Seg>, t: Timing, i: nat, w: Wire)
    requires i <= |buf|
    ensures w in Pushes(buf, t.due, Room(e), e.rcv, t.now, i)
            <==> exists j :: 0 <= j < i && (j >= |t.due| || t.due[j]) && w == DataWire(e, t.now, buf[j])
  {
    if i > 0 {
      PushesHave(e, buf, t, i - 1, w);
      var last := DataWire(e, t.now, buf[i - 1]);
      assert Pushes(buf, t.due, Room(e), e.rcv, t.now, i)
        == Pushes(buf, t.due, Room(e), e.rcv, t.now, i - 1) + if i - 1 >= |t.due| || t.due[i - 1] then [last] else [];
    }
  }

  /** The numbers ascend and stay below a bound. */
  ghost predicate AscendBelow(d: seq<Wire>, hi: nat) {
    (forall a, b :: 0 <= a < b < |d| ==> d[a].sn < d[b].sn) && forall a :: 0 <= a < |d| ==> d[a].sn < hi
  }

  lemma AscendMore(d: seq<Wire>, hi: nat, w: Wire)
    requires AscendBelow(d, hi) && hi <= w.sn
    ensures AscendBelow(d + [w], w.sn + 1) && AscendBelow(d, w.sn + 1)
  {}

  lemma {:induction false} PushesAscend(e: Endpoint, buf: seq<Seg>, t: Timing, i: nat)
    requires i <= |buf| && Ascending(buf)
    ensures AscendBelow(Pushes(buf, t.due, Room(e), e.rcv, t.now, i), if i == 0 then 0 else buf[i - 1].sn + 1)
  {
    if i > 0 {
      PushesAscend(e, buf, t, i - 1);
      var last := Wire(Push, buf[i - 1].frg, Room(e), t.now, buf[i - 1].sn, e.rcv, buf[i - 1].data);
      AscendMore(Pushes(buf, t.due, Room(e), e.rcv, t.now, i - 1), if i == 1 then 0 else buf[i - 2].sn + 1, last);
      hide AscendBelow;
      var before := Pushes(buf, t.due, Room(e), e.rcv, t.now, i - 1);
      assert before + [] == before;
    }
  }

  /** A flush sends every newly numbered segment for the first time, and an earlier one exactly when it is
      due; each once, and in the order of their numbers. */
  lemma FlushSendsData(e: Endpoint, t: Timing)
    requires TimingOk(e, t) && BufferOk(e)
    ensures var f, m := OfKind(Flushed(e, t), Push), AfterFlush(e, t).nxt - e.nxt;
            && (forall i :: 0 <= i < m && i < |e.sndQueue| ==> DataWire(e, t.now, e.sndQueue[i].(sn := e.nxt + i)) in f)
            && (forall i :: 0 <= i < |e.sndBuf| ==> (DataWire(e, t.now, e.sndBuf[i]) in f <==> t.due[i]))
            && (forall w :: w in f ==> exists s :: s in AfterFlush(e, t).sndBuf && w == DataWire(e, t.now, s))
            && (forall a, b :: 0 <= a < b < |f| ==> f[a].sn < f[b].sn)
  {
    var buf := AfterFlush(e, t).sndBuf;
    FlushFills(e, t);
    FlushedBuffer(e, t);
    FlushKinds(e, t, Push);
    PushesAscend(e, buf, t, |buf|);
    DataIs(e, t);
    hide *;
    forall i | 0 <= i < |e.sndBuf|
      ensures DataWire(e, t.now, e.sndBuf[i]) in DataOf(e, t) <==> t.due[i]
    {
      EarlierSent(e, t, i);
    }
    forall i | 0 <= i < |e.sndQueue| && i < AfterFlush(e, t).nxt - e.nxt
      ensures DataWire(e, t.now, e.sndQueue[i].(sn := e.nxt + i)) in DataOf(e, t)
    {
      NewSent(e, t, i);
    }
    forall w | w in DataOf(e, t)
      ensures exists s :: s in buf && w == DataWire(e, t.now, s)
    {
      OnlyBuffer(e, t, w);
    }
  }

  /** The data segments of a flush, one by one. */
  lemma DataIs(e: Endpoint, t: Timing)
    requires TimingOk(e, t)
    ensures var buf := AfterFlush(e, t).sndBuf;
            && |t.due| == |e.sndBuf| && DataOf(e, t) == Pushes(buf, t.due, Room(e), e.rcv, t.now, |buf|)
            && forall w :: w in DataOf(e, t) <==>
                 exists j :: 0 <= j < |buf| && (j >= |t.due| || t.due[j]) && w == DataWire(e, t.now, buf[j])
  {
    var buf := AfterFlush(e, t).sndBuf;
    forall w
      ensures w in DataOf(e, t) <==> exists j :: 0 <= j < |buf| && (j >= |t.due| || t.due[j]) && w == DataWire(e, t.now, buf[j])
    {
      PushesHave(e, buf, t, |buf|, w);
    }
    hide AfterFlush, Pushes, DataWire;
  }

  lemma EarlierSent(e: Endpoint, t: Timing, i: nat)
    requires TimingOk(e, t) && BufferOk(e) && i < |e.sndBuf|
    ensures DataWire(e, t.now, e.sndBuf[i]) in DataOf(e, t) <==> t.due[i]
  {
    var buf := AfterFlush(e, t).sndBuf;
    FlushFills(e, t);
    FlushedBuffer(e, t);
    DataIs(e, t);
    hide AfterFlush, DataOf;
    assert e.sndBuf[i] == buf[..|e.sndBuf|][i] == buf[i];
    assert forall j :: 0 <= j < |buf| && DataWire(e, t.now, buf[j]) == DataWire(e, t.now, buf[i]) ==> j == i;
  }

  lemma NewSent(e: Endpoint, t: Timing, i: nat)
    requires TimingOk(e, t) && i < |e.sndQueue| && i < AfterFlush(e, t).nxt - e.nxt
    ensures DataWire(e, t.now, e.sndQueue[i].(sn := e.nxt + i)) in DataOf(e, t)
  {
    var buf := AfterFlush(e, t).sndBuf;
    FlushFills(e, t);
    DataIs(e, t);
    hide AfterFlush, DataOf;
    assert buf[|e.sndBuf| + i] == e.sndQueue[i].(sn := e.nxt + i);
  }

  lemma OnlyBuffer(e: Endpoint, t: Timing, w: Wire)
    requires TimingOk(e, t) && w in DataOf(e, t)
    ensures exists s :: s in AfterFlush(e, t).sndBuf && w == DataWire(e, t.now, s)
  {
    var buf := AfterFlush(e, t).sndBuf;
    DataIs(e, t);
    hide AfterFlush, DataOf;
    var j :| 0 <= j < |buf| && w == DataWire(e, t.now, buf[j]);
    assert buf[j] in buf;
  }

  lemma FlushedBuffer(e: Endpoint, t: Timing)
    requires BufferOk(e)
    ensures BufferOk(AfterFlush(e, t))
  {
    var buf := e.sndBuf + Assigned(e, t.cwnd);
    assert buf == AfterFlush(e, t).sndBuf && |Assigned(e, t.cwnd)| == Moved(e, t.cwnd) && AfterFlush(e, t).nxt == e.nxt + Moved(e, t.cwnd);
    hide Moved, Numbered, Assigned;
    forall i | 0 <= i < |buf|
      ensures buf[i].sn == if i < |e.sndBuf| then e.sndBuf[i].sn else e.nxt + i - |e.sndBuf|
      ensures e.una <= buf[i].sn < e.nxt + Moved(e, t.cwnd)
      ensures i < |e.sndBuf| ==> buf[i].sn < e.nxt
    {
      if i < |e.sndBuf| { assert buf[i] == e.sndBuf[i] && e.sndBuf[i] in e.sndBuf; }
      else { AssignedNumber(e, t.cwnd, i - |e.sndBuf|); }
    }
  }

  lemma AssignedNumber(e: Endpoint, cwnd: nat, i: nat)
    requires i < |Assigned(e, cwnd)|
    ensures Assigned(e, cwnd)[i].sn == e.nxt + i
  {}

  // ---------- acknowledgements over runs ----------

  /** One side after some events. */
  ghost function After(x: Side, evs: seq<Event>): (y: Side)
    requires x.e.mss > 0
    ensures y.e.mss == x.e.mss
  {
    if evs == [] then x
    else
      var y, ev := After(x, evs[..|evs| - 1]), evs[|evs| - 1];
      SameMss(y, ev);
      Local(y, ev)
  }

  lemma SameMss(x: Side, ev: Event)
    requires x.e.mss > 0
    ensures Local(x, ev).e.mss == x.e.mss
  {
    hide DropBelow, Without, Ready, Insert, PeekSize, Count, Fragments, Moved, Assigned;
  }

  /** What has to be acknowledged: the data that has arrived in or before the window since the last flush. */
  ghost function Owed(x: Side, evs: seq<Event>): seq<Pending>
    requires x.e.mss > 0
  {
    if evs == [] then x.e.acks
    else
      var y, ev, before := After(x, evs[..|evs| - 1]).e, evs[|evs| - 1], Owed(x, evs[..|evs| - 1]);
      if ev.Flush? then []
      else if ev.Arrive? && ev.w.cmd == Push && ev.w.sn < y.rcv + y.rcvWnd then before + [Pending(ev.w.sn, ev.w.ts)]
      else before
  }

  lemma {:induction false} OwedIs(x: Side, evs: seq<Event>)
    requires x.e.mss > 0
    ensures After(x, evs).e.acks == Owed(x, evs)
  {
    if evs != [] {
      OwedIs(x, evs[..|evs| - 1]);
      var y, ev := After(x, evs[..|evs| - 1]), evs[|evs| - 1];
      hide After;
      LocalAcks(y, ev);
    }
  }

  lemma LocalAcks(x: Side, ev: Event)
    requires x.e.mss > 0
    ensures Local(x, ev).e.acks == if ev.Flush? then []
                                   else if ev.Arrive? && InWindow(x.e, ev.w) then x.e.acks + [Pending(ev.w.sn, ev.w.ts)] else x.e.acks
  {
    match ev
    case Send(data) => { SendKeepsLink(x.e, data); }
    case Arrive(w) => { InputAcks(x.e, w); hide Input; }
    case Flush(t) => { FlushFills(x.e, t); hide AfterFlush; }
    case Read(len, peek) => { ReadAcks(x.e, len, peek); hide Recv; }
  }

  lemma ReadAcks(e: Endpoint, len: nat, peek: bool)
    ensures Recv(e, len, peek).e.acks == e.acks
  {
    hide PeekSize, Ready;
  }

  /** Whatever has happened, a flush answers exactly the data that has arrived in or before the window since
      the flush before it: one acknowledgement each, in order, with its number and its time. */
  lemma FlushAnswers(x: Side, evs: seq<Event>, t: Timing)
    requires x.e.mss > 0
    ensures var e, owed := After(x, evs).e, Owed(x, evs);
            && |OfKind(Flushed(e, t), Ack)| == |owed|
            && forall i :: 0 <= i < |owed| ==>
                 OfKind(Flushed(e, t), Ack)[i] == Wire(Ack, 0, WindowLeft(e), owed[i].ts, owed[i].sn, e.rcv, [])
  {
    OwedIs(x, evs);
    FlushAcks(After(x, evs).e, t);
    hide Flushed, OfKind, After, Owed;
  }

  /** In particular data that arrives is answered by the next flush, whatever happens before it. */
  lemma DataIsAnswered(x: Side, w: Wire, evs: seq<Event>, t: Timing)
    requires x.e.mss > 0 && InWindow(x.e, w) && forall ev :: ev in evs ==> !ev.Flush?
    ensures var y := After(x, [Arrive(w)] + evs).e;
            Wire(Ack, 0, WindowLeft(y), w.ts, w.sn, y.rcv, []) in OfKind(Flushed(y, t), Ack)
  {
    var all, p := [Arrive(w)] + evs, Pending(w.sn, w.ts);
    FlushAnswers(x, all, t);
    StillOwed(x, w, evs);
    hide Flushed, OfKind, After, Owed;
    var i :| 0 <= i < |Owed(x, all)| && Owed(x, all)[i] == p;
    assert OfKind(Flushed(After(x, all).e, t), Ack)[i] == Wire(Ack, 0, WindowLeft(After(x, all).e), w.ts, w.sn, After(x, all).e.rcv, []);
  }

  lemma {:induction false} StillOwed(x: Side, w: Wire, evs: seq<Event>)
    requires x.e.mss > 0 && InWindow(x.e, w) && forall ev :: ev in evs ==> !ev.Flush?
    ensures Pending(w.sn, w.ts) in Owed(x, [Arrive(w)] + evs)
  {
    var all := [Arrive(w)] + evs;
    if evs == [] {
      assert all == [Arrive(w)] && all[..0] == [] && After(x, []) == x;
    } else {
      assert all[..|all| - 1] == [Arrive(w)] + evs[..|evs| - 1];
      assert all[|all| - 1] == evs[|evs| - 1] && evs[|evs| - 1] in evs;
      StillOwed(x, w, evs[..|evs| - 1]);
    }
  }

  // ---------- the window reopens ----------

  lemma LocalTells(x: Side, ev: Event)
    requires x.e.mss > 0 && !ev.Flush?
    ensures var y := Local(x, ev).e;
            && y.rcvWnd == x.e.rcvWnd && (x.e.tell ==> y.tell)
            && (|x.e.rcvQueue| >= x.e.rcvWnd && |y.rcvQueue| < y.rcvWnd ==> y.tell)
  {
    match ev
    case Send(data) => { SendKeepsLink(x.e, data); hide SendData; }
    case Arrive(w) => { InputTells(x.e, w); hide Input; }
    case Flush(t) =>
    case Read(len, peek) => { ReadTells(x.e, len, peek); hide Recv; }
  }

  lemma InputTells(e: Endpoint, w: Wire)
    ensures var r := Input(e, w); r.rcvWnd == e.rcvWnd && (e.tell ==> r.tell) && |r.rcvQueue| >= |e.rcvQueue|
  {
    hide DropBelow, Without, Ready, Insert;
  }

  lemma ReadTells(e: Endpoint, len: nat, peek: bool)
    ensures var r := Recv(e, len, peek).e;
            && r.rcvWnd == e.rcvWnd && r.tell == (e.tell || (|e.rcvQueue| >= e.rcvWnd && |r.rcvQueue| < r.rcvWnd))
  {
    hide PeekSize, Ready;
  }

  /** Whenever the receive queue has been full and has room again, the peer is told by the next flush. */
  lemma {:induction false} WindowReopens(x: Side, evs: seq<Event>, t: Timing)
    requires x.e.mss > 0 && |x.e.rcvQueue| >= x.e.rcvWnd && forall ev :: ev in evs ==> !ev.Flush?
    ensures var e := After(x, evs).e;
            e.rcvWnd == x.e.rcvWnd && (|e.rcvQueue| < e.rcvWnd ==> e.tell && |OfKind(Flushed(e, t), Wins)| == 1)
  {
    FlushAcks(After(x, evs).e, t);
    hide Flushed, OfKind;
    if evs != [] {
      assert evs[|evs| - 1] in evs;
      WindowReopens(x, evs[..|evs| - 1], t);
      hide After;
      LocalTells(After(x, evs[..|evs| - 1]), evs[|evs| - 1]);
      assert After(x, evs) == Local(After(x, evs[..|evs| - 1]), evs[|evs| - 1]) by { AfterLast(x, evs); }
    }
  }

  lemma AfterLast(x: Side, evs: seq<Event>)
    requires x.e.mss > 0 && evs != []
    ensures After(x, evs) == Local(After(x, evs[..|evs| - 1]), evs[|evs| - 1])
  {}

  // ---------- what is in order is passed on ----------

  lemma LocalPasses(x: Side, ev: Event)
    requires (ev.Send? ==> x.e.mss > 0) && PassedOn(x.e) && Ascending(x.e.rcvBuf)
    ensures PassedOn(Local(x, ev).e)
  {
    match ev
    case Send(data) => { SendKeepsLink(x.e, data); hide SendData; }
    case Arrive(w) => { InputReceiver(x.e, w); hide Input; }
    case Flush(t) => { FlushFills(x.e, t); hide AfterFlush; }
    case Read(len, peek) => { ReadPasses(x.e, len, peek); hide Recv; }
  }

  lemma ReadPasses(e: Endpoint, len: nat, peek: bool)
    requires PassedOn(e)
    ensures PassedOn(Recv(e, len, peek).e)
  {
    var n := MessageEnd(e.rcvQueue);
    MoveReadyPasses(e);
    MoveReadyPasses(e.(rcvQueue := e.rcvQueue[n..]));
    hide PeekSize, MoveReady, MessageEnd;
  }

  ghost predicate AllPassedOn(s: Sys) { PassedOn(s.a.e) && PassedOn(s.b.e) }

  lemma NextPasses(s: Sys, s': Sys)
    requires AllPassedOn(s) && SysOk(s) && Next(s, s')
    ensures AllPassedOn(s')
  {
    assert Ascending(s.a.e.rcvBuf) && Ascending(s.b.e.rcvBuf);
    hide PassedOn, Local, SysOk;
    if ev :| Possible(s.a, s.toA, ev) && s' == StepA(s, ev) {
      LocalPasses(s.a, ev);
    } else {
      var ev :| Possible(s.b, s.toB, ev) && Swap(s') == StepA(Swap(s), ev);
      LocalPasses(s.b, ev);
    }
  }

  /** In every state of every run, on both sides, the next segment in order never waits in the receive
      buffer unless the receive queue fills the window. */
  lemma {:induction false} InOrderIsPassedOn(states: seq<Sys>, i: nat)
    requires Run(states) && i < |states|
    ensures AllPassedOn(states[i])
  {
    hide Next, SysOk;
    if i > 0 {
      InOrderIsPassedOn(states, i - 1);
      RunOk(states, i - 1);
      assert Next(states[i - 1], states[i - 1 + 1]);
      hide AllPassedOn;
      NextPasses(states[i - 1], states[i]);
    }
  }

  /** In every state of every run both send buffers and both receive buffers are in order. */
  lemma RunBuffers(states: seq<Sys>, i: nat)
    requires Run(states) && i < |states|
    ensures BufferOk(states[i].a.e) && BufferOk(states[i].b.e)
    ensures Ascending(states[i].a.e.rcvBuf) && Ascending(states[i].b.e.rcvBuf)
  {
    RunOk(states, i);
    hide Run;
  }

  // ---------- what a send takes ----------

  /** A message is refused exactly when it needs 128 segments or more. */
  lemma MessageRefused(e: Endpoint, data: seq<Byte>)
    requires e.mss > 0 && !e.stream
    ensures var r := SendData(e, data);
            if |data| > 127 * e.mss then r.code == -2 && r.e == e
            else r.code == |data| && |r.e.sndQueue| == |e.sndQueue| + Pieces(|data|, e.mss)
  {
    CountPieces(|data|, e.mss);
    assert data[0..] == data;
    hide Count, Fragments, Pieces;
  }

  /** Streaming fills the last queued segment first.  What is left is refused exactly when it needs 128
      segments or more, and then the return code says how much has been taken. */
  lemma StreamRefused(e: Endpoint, data: seq<Byte>)
    requires e.mss > 0 && e.stream
    ensures var r, n := SendData(e, data), |e.sndQueue|;
            var room := if n == 0 || |e.sndQueue[n - 1].data| >= e.mss then 0 else e.mss - |e.sndQueue[n - 1].data|;
            var x := if |data| < room then |data| else room;
            && r.code == (if |data| - x <= 127 * e.mss then |data| else if x > 0 then x else -2)
            && |r.e.sndQueue| == n + (if 0 < |data| - x <= 127 * e.mss then Pieces(|data| - x, e.mss) else 0)
            && (room > 0 ==> |r.e.sndQueue[n - 1].data| == |e.sndQueue[n - 1].data| + x)
  {
    var x := Taken(e, |data|);
    CountPieces(|data| - x, e.mss);
    assert |data[x..]| == |data| - x;
    assert 127 * e.mss >= 0;
    hide Count, Fragments, Pieces;
  }

  /** The least number of pieces, one at least. */
  ghost function Pieces(len: nat, mss: nat): (c: nat)
    requires mss > 0
    ensures c >= 1 && len <= c * mss && (c > 1 ==> (c - 1) * mss < len)
  {
    CountPieces(len, mss);
    Count(len, mss)
  }

  lemma CountPieces(len: nat, mss: nat)
    requires mss > 0
    ensures var c := Count(len, mss); len <= c * mss && (c > 1 ==> (c - 1) * mss < len)
    ensures Count(len, mss) >= WND_RCV <==> len > 127 * mss
  {
    var c := Count(len, mss);
    if len > mss {
      var x := len + mss - 1;
      DivisionBounds(x, mss);
      assert c * mss <= x < (c + 1) * mss;
      assert (c + 1) * mss == c * mss + mss && (c - 1) * mss == c * mss - mss;
    }
    Monotone(c, 128, mss);
    Monotone(127, c, mss);
  }

  lemma DivisionBounds(x: nat, y: nat)
    requires y > 0
    ensures x / y * y <= x < (x / y + 1) * y
  {
    assert x == x / y * y + x % y;
    assert (x / y + 1) * y == x / y * y + y;
  }

  /** Products with a common factor compare like the other factors. */
  lemma Monotone(a: nat, b: nat, m: nat)
    ensures a < b ==> a * m + m <= b * m
    ensures a >= b ==> a * m >= b * m
  {
    if a < b { assert (b - a - 1) * m >= 0; assert (b - a - 1) * m == b * m - a * m - m; }
    else { assert (a - b) * m >= 0; assert (a - b) * m == a * m - b * m; }
  }
}
