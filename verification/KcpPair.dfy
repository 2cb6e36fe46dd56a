/** Two 32-bit control blocks that exchange datagrams, as src/kcp_small_sender.cpp and
    src/kcp_small_receiver.cpp do over a channel that may drop, duplicate and reorder them. */
module KcpPair {
  import opened Bytes
  import opened KcpEndpoint
  import opened KcpNoLoss
  import opened KcpRuns
  import opened KcpMessages
  import opened KcpWrapping
  import opened KcpWire
  import opened KcpControl

  // ---------- states that runs lead to ----------

  ghost predicate EndsIn(states: seq<Sys>, s: Sys) { Run(states) && states[|states| - 1] == s }

  ghost predicate Reachable(s: Sys) { exists states :: EndsIn(states, s) }

  lemma ReachableNext(s: Sys, s': Sys)
    requires Reachable(s) && Next(s, s')
    ensures Reachable(s')
  {
    hide Next, FreshSide;
    var states :| EndsIn(states, s);
    assert EndsIn(states + [s'], s');
  }

  /** The two sides have the same roles. */
  lemma ReachableSwap(s: Sys)
    requires Reachable(s)
    ensures Reachable(Swap(s))
  {
    hide FreshSide, StepA, Possible;
    var states :| EndsIn(states, s);
    var swapped := seq(|states|, i requires 0 <= i < |states| => Swap(states[i]));
    forall i | 0 <= i < |swapped| - 1
      ensures Next(swapped[i], swapped[i + 1])
    {
      assert Next(states[i], states[i + 1]);
      NextSwap(states[i], states[i + 1]);
    }
    assert EndsIn(swapped, Swap(s));
  }

  lemma NextSwap(s: Sys, s': Sys)
    requires Next(s, s')
    ensures Next(Swap(s), Swap(s'))
  {
    hide StepA, Possible;
    if ev :| Possible(s.a, s.toA, ev) && s' == StepA(s, ev) {
      assert Possible(Swap(s).b, Swap(s).toB, ev) && Swap(Swap(s')) == StepA(Swap(Swap(s)), ev);
    } else {
      var ev :| Possible(s.b, s.toB, ev) && Swap(s') == StepA(Swap(s), ev);
    }
  }

  lemma ReachableOk(s: Sys)
    requires Reachable(s)
    ensures SysOk(s)
  {
    hide Run, SysOk;
    var states :| EndsIn(states, s);
    assert |states| > 0 by { RunNotEmpty(states); }
    RunOk(states, |states| - 1);
  }

  lemma RunNotEmpty(states: seq<Sys>)
    requires Run(states)
    ensures states != []
  {}

  // ---------- numbers that 32 bits tell apart ----------

  /** Fewer than 2^31 numbers, less a window, have been assigned on either side. */
  ghost predicate NumbersFit(s: Sys) {
    s.a.e.nxt + s.b.e.rcvWnd <= HALF && s.b.e.nxt + s.a.e.rcvWnd <= HALF
    && 0 < s.a.e.rcvWnd && 0 < s.b.e.rcvWnd
  }

  ghost predicate TimesFit(net: set<Wire>) { forall w :: w in net ==> w.ts < M }

  /** However long a segment has been on the way, its numbers are near the endpoint that it reaches. */
  lemma WireNear(s: Sys, w: Wire)
    requires SysOk(s) && NumbersFit(s) && TimesFit(s.toA) && w in s.toA
    ensures Near(s.a.e, w)
  {
    var x, y := s.a, s.b;
    assert Linked(x, y, s.toA, s.toB) && Linked(y, x, s.toB, s.toA);
    assert w.una <= y.e.rcv <= |x.log| == x.e.nxt;
    if w.cmd == Ack { assert Holds(y.e, x.log, w.sn); }
    hide Linked;
    assert Shrink(KcpEndpoint.ParseUna(x.e, w.una)).nxt == x.e.nxt;
  }

  /** The state after these segments have arrived at the first side. */
  ghost function Delivered(s: Sys, ws: seq<Wire>): Sys { s.(a := s.a.(e := InputAll(s.a.e, ws))) }

  lemma InputKeeps(e: Endpoint, w: Wire)
    ensures KcpEndpoint.Input(e, w).nxt == e.nxt && KcpEndpoint.Input(e, w).rcvWnd == e.rcvWnd
  {
    hide DropBelow, Without, Ready, Insert;
  }

  /** A datagram is a batch of arrivals: all its segments are near when their turn comes. */
  lemma {:induction false} ArrivalsNear(s: Sys, ws: seq<Wire>)
    requires Reachable(s) && NumbersFit(s) && TimesFit(s.toA) && forall w :: w in ws ==> w in s.toA
    ensures AllNear(s.a.e, ws) && Reachable(Delivered(s, ws)) && NumbersFit(Delivered(s, ws))
  {
    hide Reachable, Near, KcpEndpoint.Input, Possible;
    if ws == [] {
      assert Delivered(s, ws) == s;
    } else {
      var init, w := ws[..|ws| - 1], ws[|ws| - 1];
      ArrivalsNear(s, init);
      var m := Delivered(s, init);
      ReachableOk(m);
      WireNear(m, w);
      InputKeeps(m.a.e, w);
      ArriveNext(m, w);
      ReachableNext(m, Delivered(s, ws));
    }
  }

  lemma ArriveNext(s: Sys, w: Wire)
    requires w in s.toA
    ensures Next(s, s.(a := s.a.(e := KcpEndpoint.Input(s.a.e, w))))
  {
    hide KcpEndpoint.Input;
    var ev := Arrive(w);
    assert s.toB + {} == s.toB;
    assert Possible(s.a, s.toA, ev) && StepA(s, ev) == s.(a := s.a.(e := KcpEndpoint.Input(s.a.e, w)));
  }

  // ---------- datagrams on the way ----------

  /** The bytes are these segments. */
  ghost predicate Encodes(conv: nat, d: seq<Byte>, ws: seq<Wire>, net: set<Wire>) {
    OVERHEAD <= |d| && Parse(conv, d) == Parsed(WWires(ws), 0) && forall w :: w in ws ==> w in net
  }

  ghost predicate AllEncode(conv: nat, data: set<seq<Byte>>, net: set<Wire>) {
    forall d :: d in data ==> exists ws :: Encodes(conv, d, ws, net)
  }

  /** Segments among those of a flush are what some of its segments look like in 32 bits. */
  lemma {:induction false} Originals(part: seq<Wire>, full: seq<Wire>) returns (ws: seq<Wire>)
    requires forall j :: 0 <= j < |part| ==> part[j] in WWires(full)
    ensures WWires(ws) == part && forall w :: w in ws ==> w in full
  {
    ws := [];
    if part != [] {
      var init := part[..|part| - 1];
      ws := Originals(init, full);
      var i :| 0 <= i < |full| && WWires(full)[i] == part[|part| - 1];
      hide WWire;
      assert WWires(ws + [full[i]]) == init + [WWire(full[i])];
      ws := ws + [full[i]];
    }
  }

  /** The datagrams of a flush, as a set. */
  ghost function FlushedData(conv: nat, e: Endpoint, t: Timing, mtu: nat): set<seq<Byte>> {
    set d | d in Datagrams(conv, Batched(WWires(Flushed(e, t)), mtu))
  }

  lemma FlushEncodes(conv: nat, e: Endpoint, t: Timing, mtu: nat, net: set<Wire>)
    requires Windowed(e) && Fitting(e) && e.mss == mtu - OVERHEAD && mtu < HALF
    requires conv < M && e.rcvWnd < 0x1_0000 && t.now < M
    requires forall w :: w in Flushed(e, t) ==> w in net
    ensures AllEncode(conv, FlushedData(conv, e, t, mtu), net)
  {
    FlushDatagrams(conv, e, t, mtu);
    hide Flushed, Batched, Parse, Datagram, Windowed, Fitting;
    var out := Batched(WWires(Flushed(e, t)), mtu);
    forall d | d in FlushedData(conv, e, t, mtu)
      ensures exists ws :: Encodes(conv, d, ws, net)
    {
      var i :| 0 <= i < |out| && d == Datagrams(conv, out)[i];
      FlattenHas(out, i);
      var ws := Originals(out[i], Flushed(e, t));
      assert Encodes(conv, d, ws, net);
    }
  }

  lemma EncodeMore(conv: nat, data: set<seq<Byte>>, net: set<Wire>, more: set<Wire>)
    requires AllEncode(conv, data, net)
    ensures AllEncode(conv, data, net + more)
  {
    hide Parse;
    forall d | d in data
      ensures exists ws :: Encodes(conv, d, ws, net + more)
    {
      var ws :| Encodes(conv, d, ws, net);
      assert Encodes(conv, d, ws, net + more);
    }
  }

  /** The times of what a flush sends. */
  lemma FlushTimes(e: Endpoint, t: Timing)
    requires Windowed(e) && Fitting(e) && e.rcvWnd < 0x1_0000 && t.now < M && e.mss < HALF
    ensures TimesFit(WireSet(Flushed(e, t)))
  {
    forall w | w in WireSet(Flushed(e, t))
      ensures w.ts < M
    {
      FlushedFits(e, t, w);
    }
  }

  // ---------- the pair ----------

  /** A run has led to this system, and the datagrams on the way are made of its segments. */
  ghost predicate Channel(conv: nat, s: Sys, toX: set<seq<Byte>>, toY: set<seq<Byte>>) {
    && Reachable(s) && NumbersFit(s) && TimesFit(s.toA) && TimesFit(s.toB)
    && AllEncode(conv, toX, s.toA) && AllEncode(conv, toY, s.toB)
  }

  /** Two objects of one conversation. */
  ghost predicate Separate(x: Kcp, y: Kcp) {
    && x != y && x.buffer != y.buffer && x.conv == y.conv
    && x.rcvWnd < 0x1_0000 && y.rcvWnd < 0x1_0000 && x.mtu < HALF && y.mtu < HALF
  }

  /** The two objects are the two sides of the system. */
  ghost predicate Objects(x: Kcp, y: Kcp, s: Sys)
    reads x, y
  {
    Separate(x, y) && x.Valid() && y.Valid() && x.e == s.a.e && y.e == s.b.e
  }

  ghost predicate Joined(x: Kcp, y: Kcp, s: Sys, toX: set<seq<Byte>>, toY: set<seq<Byte>>)
    reads x, y
  {
    Objects(x, y, s) && Channel(x.conv, s, toX, toY)
  }

  /** What holds of one side holds of the other. */
  lemma JoinedSwap(x: Kcp, y: Kcp, s: Sys, toX: set<seq<Byte>>, toY: set<seq<Byte>>)
    requires Joined(x, y, s, toX, toY)
    ensures Joined(y, x, Swap(s), toY, toX)
  {
    ReachableSwap(s);
    hide Reachable, TimesFit, AllEncode, Kcp.Valid;
  }

  /** A fresh pair. */
  method Connect(conv: nat, mtu: nat, stream: bool, wnd: nat) returns (x: Kcp, y: Kcp, ghost s: Sys)
    requires conv < M && OVERHEAD < mtu < HALF && 0 < wnd < 0x1_0000
    ensures Joined(x, y, s, {}, {}) && fresh(x) && fresh(y) && fresh(x.buffer) && fresh(y.buffer)
    ensures FreshSide(s.a) && FreshSide(s.b)
  {
    x := new Kcp(conv, mtu, stream, wnd);
    y := new Kcp(conv, mtu, stream, wnd);
    var side := Side(Fresh(mtu - OVERHEAD, stream, wnd), [], [], [], []);
    s := Sys(side, side, {}, {});
    assert EndsIn([s], s);
  }

  // ---------- what one event does ----------

  /** The objects after a step at x. */
  lemma Rejoin(x: Kcp, y: Kcp, s: Sys, toX: set<seq<Byte>>, toY: set<seq<Byte>>)
    requires Objects(x, y, s) && Channel(x.conv, s, toX, toY)
    ensures Joined(x, y, s, toX, toY)
  {}

  /** What x is before a step. */
  lemma Parts(x: Kcp, y: Kcp, s: Sys, toX: set<seq<Byte>>, toY: set<seq<Byte>>)
    requires Joined(x, y, s, toX, toY)
    ensures Channel(x.conv, s, toX, toY) && x != y && Separate(x, y) && x.Valid() && y.Valid() && x.e == s.a.e && y.e == s.b.e
    ensures x.e.mss == x.mtu - OVERHEAD > 0 && x.mtu < HALF && x.conv < M && y.rcvWnd == y.e.rcvWnd && x.e.rcvWnd < 0x1_0000
    ensures Windowed(x.e) && Fitting(x.e)
  {
    hide Channel, Windowed, Fitting, W;
  }

  lemma Together(x: Kcp, y: Kcp, s: Sys)
    requires Separate(x, y) && x.Valid() && y.Valid() && x.e == s.a.e && y.e == s.b.e
    ensures Objects(x, y, s)
  {
    hide Kcp.Valid;
  }

  /** An event at the first side that sends nothing and assigns no number. */
  lemma QuietStep(conv: nat, s: Sys, ev: Event, toX: set<seq<Byte>>, toY: set<seq<Byte>>)
    requires Channel(conv, s, toX, toY) && Possible(s.a, s.toA, ev) && Output(s.a, ev) == {}
    requires Local(s.a, ev).e.nxt == s.a.e.nxt && Local(s.a, ev).e.rcvWnd == s.a.e.rcvWnd
    ensures Channel(conv, StepA(s, ev), toX, toY)
  {
    hide Reachable, TimesFit, AllEncode, Possible, Local, Output;
    assert s.toB + {} == s.toB;
    StepNext(s, ev);
    ReachableNext(s, StepA(s, ev));
  }

  lemma StepNext(s: Sys, ev: Event)
    requires Possible(s.a, s.toA, ev)
    ensures Next(s, StepA(s, ev))
  {}

  lemma SendStep(conv: nat, s: Sys, data: seq<Byte>, toX: set<seq<Byte>>, toY: set<seq<Byte>>)
    requires Channel(conv, s, toX, toY) && s.a.e.mss > 0
    ensures var ev := Event.Send(data);
            && Possible(s.a, s.toA, ev) && Channel(conv, StepA(s, ev), toX, toY)
            && StepA(s, ev).a.e == SendData(s.a.e, data).e && StepA(s, ev).b == s.b
  {
    hide Channel, SendData;
    SendKeepsLink(s.a.e, data);
    QuietStep(conv, s, Event.Send(data), toX, toY);
  }

  lemma ReadStep(conv: nat, s: Sys, len: nat, peek: bool, toX: set<seq<Byte>>, toY: set<seq<Byte>>)
    requires Channel(conv, s, toX, toY)
    ensures var ev := Read(len, peek);
            && Possible(s.a, s.toA, ev) && Channel(conv, StepA(s, ev), toX, toY)
            && StepA(s, ev).a.e == KcpEndpoint.Recv(s.a.e, len, peek).e && StepA(s, ev).b == s.b
  {
    hide Channel, KcpEndpoint.Recv;
    ReadKeepsSender(s.a.e, len, peek);
    ReadKeepsWindow(s.a.e, len, peek);
    QuietStep(conv, s, Read(len, peek), toX, toY);
  }

  lemma ReadKeepsWindow(e: Endpoint, len: nat, peek: bool)
    ensures KcpEndpoint.Recv(e, len, peek).e.rcvWnd == e.rcvWnd
  {
    hide KcpEndpoint.PeekSize, Ready;
  }

  lemma FlushStep(conv: nat, s: Sys, t: Timing, mtu: nat, toX: set<seq<Byte>>, toY: set<seq<Byte>>)
    requires Channel(conv, s, toX, toY) && TimingOk(s.a.e, t) && AfterFlush(s.a.e, t).nxt + s.b.e.rcvWnd <= HALF
    requires Windowed(s.a.e) && Fitting(s.a.e) && s.a.e.mss == mtu - OVERHEAD && mtu < HALF
    requires conv < M && s.a.e.rcvWnd < 0x1_0000 && t.now < M
    ensures var ev := Event.Flush(t);
            && Possible(s.a, s.toA, ev) && Channel(conv, StepA(s, ev), toX, toY + FlushedData(conv, s.a.e, t, mtu))
            && StepA(s, ev).a.e == AfterFlush(s.a.e, t) && StepA(s, ev).b == s.b
  {
    hide *;
    FlushSystem(s, t);
    var s' := StepA(s, Event.Flush(t));
    var more := FlushedData(conv, s.a.e, t, mtu);
    assert Reachable(s) && NumbersFit(s) && TimesFit(s.toA) && TimesFit(s.toB)
      && AllEncode(conv, toX, s.toA) && AllEncode(conv, toY, s.toB) by { ChannelIs(conv, s, toX, toY); }
    ReachableNext(s, s');
    FlushNumbersFit(s, s', t);
    FlushNet(conv, s.a.e, t, mtu, s.toB, toY);
    ChannelIs(conv, s', toX, toY + more);
  }

  lemma ChannelIs(conv: nat, s: Sys, toX: set<seq<Byte>>, toY: set<seq<Byte>>)
    ensures Channel(conv, s, toX, toY) <==>
              Reachable(s) && NumbersFit(s) && TimesFit(s.toA) && TimesFit(s.toB)
              && AllEncode(conv, toX, s.toA) && AllEncode(conv, toY, s.toB)
  {
    hide Reachable, NumbersFit, TimesFit, AllEncode;
  }

  lemma FlushNumbersFit(s: Sys, s': Sys, t: Timing)
    requires NumbersFit(s) && AfterFlush(s.a.e, t).nxt + s.b.e.rcvWnd <= HALF
    requires s'.a.e == AfterFlush(s.a.e, t) && s'.b == s.b
    ensures NumbersFit(s')
  {
    hide Moved, Assigned;
  }

  /** What is on the way to the other side after a flush. */
  lemma FlushNet(conv: nat, e: Endpoint, t: Timing, mtu: nat, net: set<Wire>, data: set<seq<Byte>>)
    requires Windowed(e) && Fitting(e) && e.mss == mtu - OVERHEAD && mtu < HALF
    requires conv < M && e.rcvWnd < 0x1_0000 && t.now < M
    requires TimesFit(net) && AllEncode(conv, data, net)
    ensures TimesFit(net + WireSet(Flushed(e, t))) && AllEncode(conv, data + FlushedData(conv, e, t, mtu), net + WireSet(Flushed(e, t)))
  {
    var more := WireSet(Flushed(e, t));
    FlushTimes(e, t);
    FlushEncodes(conv, e, t, mtu, net + more);
    EncodeMore(conv, data, net, more);
  }

  /** The system after a flush. */
  lemma FlushSystem(s: Sys, t: Timing)
    requires TimingOk(s.a.e, t)
    ensures var ev := Event.Flush(t);
            && Possible(s.a, s.toA, ev) && Next(s, StepA(s, ev)) && StepA(s, ev).a.e == AfterFlush(s.a.e, t)
            && StepA(s, ev).b == s.b && StepA(s, ev).toA == s.toA && StepA(s, ev).toB == s.toB + WireSet(Flushed(s.a.e, t))
  {
    hide AfterFlush, Flushed;
    StepNext(s, Event.Flush(t));
  }

  lemma FlushedDataIs(conv: nat, e: Endpoint, t: Timing, mtu: nat)
    ensures forall d :: d in FlushedData(conv, e, t, mtu) <==> d in Datagrams(conv, Batched(WWires(Flushed(e, t)), mtu))
  {
    hide Flushed, Batched;
  }

  lemma DeliverStep(conv: nat, s: Sys, d: seq<Byte>, toX: set<seq<Byte>>, toY: set<seq<Byte>>) returns (ws: seq<Wire>)
    requires Channel(conv, s, toX, toY) && d in toX
    ensures Encodes(conv, d, ws, s.toA) && OVERHEAD <= |d| && Parse(conv, d) == Parsed(WWires(ws), 0)
    ensures AllNear(s.a.e, ws) && Channel(conv, Delivered(s, ws), toX, toY)
    ensures Delivered(s, ws).a.e == InputAll(s.a.e, ws) && Delivered(s, ws).b == s.b
  {
    hide Reachable, Parse, AllNear, NumbersFit, TimesFit;
    ws :| Encodes(conv, d, ws, s.toA);
    ArrivalsNear(s, ws);
  }

  // ---------- the operations at either side ----------

  /** The user of x hands data in. */
  method SendAt(x: Kcp, y: Kcp, data: seq<Byte>, ghost s: Sys, ghost toX: set<seq<Byte>>, ghost toY: set<seq<Byte>>)
    returns (code: int, ghost s': Sys)
    requires Joined(x, y, s, toX, toY)
    modifies x`sndQueue, x`e
    ensures Joined(x, y, s', toX, toY) && code == SendData(s.a.e, data).code
    ensures Possible(s.a, s.toA, Event.Send(data)) && s' == StepA(s, Event.Send(data))
  {
    hide *;
    Parts(x, y, s, toX, toY);
    SendStep(x.conv, s, data, toX, toY);
    code := x.Send(data);
    s' := StepA(s, Event.Send(data));
    Together(x, y, s');
    Rejoin(x, y, s', toX, toY);
  }

  /** The user of x reads a message or a piece of the stream. */
  method ReadAt(x: Kcp, y: Kcp, len: nat, peek: bool, ghost s: Sys, ghost toX: set<seq<Byte>>, ghost toY: set<seq<Byte>>)
    returns (code: int, data: seq<Byte>, ghost s': Sys)
    requires Joined(x, y, s, toX, toY)
    modifies x`rcvBuf, x`rcvQueue, x`rcvNxt, x`askTell, x`e
    ensures Joined(x, y, s', toX, toY) && Possible(s.a, s.toA, Read(len, peek)) && s' == StepA(s, Read(len, peek))
    ensures var r := KcpEndpoint.Recv(s.a.e, len, peek); code == r.code && data == r.data
  {
    hide *;
    Parts(x, y, s, toX, toY);
    ReadStep(x.conv, s, len, peek, toX, toY);
    code, data := x.Recv(len, peek);
    s' := StepA(s, Read(len, peek));
    Together(x, y, s');
    Rejoin(x, y, s', toX, toY);
  }

  /** x flushes: its datagrams are on the way to y, from where they may never disappear. */
  method FlushAt(x: Kcp, y: Kcp, t: Timing, ghost s: Sys, ghost toX: set<seq<Byte>>, ghost toY: set<seq<Byte>>)
    returns (ghost s': Sys, ghost toY': set<seq<Byte>>)
    requires Joined(x, y, s, toX, toY) && TimingOk(x.e, t) && t.cwnd < HALF && t.now < M
    requires AfterFlush(x.e, t).nxt + y.rcvWnd <= HALF
    modifies x`output, x.buffer, x`sndQueue, x`sndBuf, x`sndNxt, x`ackList, x`askSend, x`askTell, x`e
    ensures Joined(x, y, s', toX, toY') && Possible(s.a, s.toA, Event.Flush(t)) && s' == StepA(s, Event.Flush(t))
    ensures old(x.output) <= x.output && toY' == toY + set d | d in x.output[|old(x.output)|..]
  {
    hide *;
    Parts(x, y, s, toX, toY);
    FlushStep(x.conv, s, t, x.mtu, toX, toY);
    ghost var more := FlushedData(x.conv, x.e, t, x.mtu);
    ghost var out := Datagrams(x.conv, Batched(WWires(Flushed(x.e, t)), x.mtu));
    assert forall d :: d in more <==> d in out by { FlushedDataIs(x.conv, x.e, t, x.mtu); }
    x.Flush(t);
    assert x.output[|old(x.output)|..] == out;
    s', toY' := StepA(s, Event.Flush(t)), toY + more;
    Together(x, y, s');
    Rejoin(x, y, s', toX, toY');
  }

  /** A datagram arrives at x, for the first time or once more: it is accepted, and its segments are
      processed in order. */
  method DeliverAt(x: Kcp, y: Kcp, d: seq<Byte>, ghost s: Sys, ghost toX: set<seq<Byte>>, ghost toY: set<seq<Byte>>)
    returns (code: int, ghost s': Sys)
    requires Joined(x, y, s, toX, toY) && d in toX
    modifies x`rmtWnd, x`sndBuf, x`sndUna, x`rcvBuf, x`rcvQueue, x`rcvNxt, x`ackList, x`askTell, x`e
    ensures Joined(x, y, s', toX, toY) && code == 0
    ensures exists ws :: Encodes(x.conv, d, ws, s.toA) && s' == Delivered(s, ws)
  {
    hide *;
    Parts(x, y, s, toX, toY);
    ghost var ws := DeliverStep(x.conv, s, d, toX, toY);
    code := x.Input(d, ws);
    s' := Delivered(s, ws);
    Together(x, y, s');
    Rejoin(x, y, s', toX, toY);
  }

  // ---------- what the pair keeps ----------

  /** The unbounded statements hold of every system a run has led to. */
  lemma ReachableKeeps(s: Sys)
    requires Reachable(s)
    ensures NothingLost(s.a.e, s.b.e, s.a.log) && s.b.e.rcv <= |s.a.log| == s.a.e.nxt
    ensures s.b.read + s.b.e.rcvQueue == s.a.log[..s.b.e.rcv] && Concat(s.b.got) <= Concat(s.a.accepted)
  {
    hide Run, NothingLost;
    var states :| EndsIn(states, s);
    RunNotEmpty(states);
    NoSegmentLost(states, |states| - 1);
    BytesInOrder(states, |states| - 1);
  }

  /** Small numbers are their own 32 bits. */
  lemma Unwrapped(segs: seq<Seg>)
    requires forall x: Seg :: x in segs ==> x.sn < M
    ensures WSegs(segs) == segs
  {
    forall i | 0 <= i < |segs|
      ensures WSegs(segs)[i] == segs[i]
    {
      assert segs[i] in segs;
    }
  }

  /** All segments in the buffers and queues that the two hold are of the log. */
  lemma FromLogSmall(s: Sys)
    requires SysOk(s) && NumbersFit(s)
    ensures forall x: Seg :: x in s.a.e.sndBuf || x in s.b.e.rcvBuf || x in s.b.e.rcvQueue ==> x.sn < M
    ensures s.a.e.nxt < M && s.b.e.rcv <= s.a.e.nxt
  {
    var log := s.a.log;
    assert Linked(s.a, s.b, s.toA, s.toB) && LogOk(log) && |log| == s.a.e.nxt;
    forall x: Seg | x in s.b.e.rcvQueue
      ensures x.sn < |log|
    {
      assert x in s.b.read + s.b.e.rcvQueue;
      var i :| 0 <= i < s.b.e.rcv && log[i] == x;
    }
    assert FromLog(s.a.e.sndBuf, log, s.a.e.una) && FromLog(s.b.e.rcvBuf, log, s.b.e.rcv);
  }

  /** Two 32-bit control blocks joined by a channel that drops, duplicates and reorders datagrams lose no
      segment: each numbered one is in the sender's buffer, or the receiver holds it; what has been read,
      followed by the receive queue, is the segments numbered below rcv_nxt; and the bytes that y's user
      has read are a prefix of those that x's user has handed in. */
  lemma PairLosesNothing(x: Kcp, y: Kcp, s: Sys, toX: set<seq<Byte>>, toY: set<seq<Byte>>)
    requires Joined(x, y, s, toX, toY)
    ensures var log := s.a.log;
            && x.sndNxt == |log| && y.rcvNxt <= |log| && s.b.read + y.rcvQueue == log[..y.rcvNxt]
            && forall sn :: 0 <= sn < |log| ==> log[sn] in x.sndBuf || sn < y.rcvNxt || log[sn] in y.rcvBuf
    ensures Concat(s.b.got) <= Concat(s.a.accepted)
  {
    Parts(x, y, s, toX, toY);
    ChannelKeeps(x.conv, s, toX, toY);
    Fields(x);
    Fields(y);
    hide *;
    Unwrapped(x.e.sndBuf);
    Unwrapped(y.e.rcvBuf);
    Unwrapped(y.e.rcvQueue);
    WrapsTo(x.e.nxt);
    WrapsTo(y.e.rcv);
  }

  lemma Fields(x: Kcp)
    requires x.Valid()
    ensures x.sndNxt == W(x.e.nxt) && x.rcvNxt == W(x.e.rcv)
    ensures x.sndBuf == WSegs(x.e.sndBuf) && x.rcvBuf == WSegs(x.e.rcvBuf) && x.rcvQueue == WSegs(x.e.rcvQueue)
  {
    hide Windowed, Fitting, W;
  }

  lemma WrapsTo(n: nat)
    requires n < M
    ensures W(n) == n
  {}

  lemma ChannelKeeps(conv: nat, s: Sys, toX: set<seq<Byte>>, toY: set<seq<Byte>>)
    requires Channel(conv, s, toX, toY)
    ensures |s.a.log| == s.a.e.nxt < M && s.b.e.rcv <= |s.a.log| && s.b.read + s.b.e.rcvQueue == s.a.log[..s.b.e.rcv]
    ensures forall sn :: 0 <= sn < |s.a.log| ==> s.a.log[sn] in s.a.e.sndBuf || sn < s.b.e.rcv || s.a.log[sn] in s.b.e.rcvBuf
    ensures forall g: Seg :: g in s.a.e.sndBuf || g in s.b.e.rcvBuf || g in s.b.e.rcvQueue ==> g.sn < M
    ensures Concat(s.b.got) <= Concat(s.a.accepted)
  {
    hide Reachable, TimesFit, AllEncode, SysOk;
    ReachableOk(s);
    ReachableKeeps(s);
    FromLogSmall(s);
    forall sn | 0 <= sn < |s.a.log|
      ensures s.a.log[sn] in s.a.e.sndBuf || sn < s.b.e.rcv || s.a.log[sn] in s.b.e.rcvBuf
    {
      assert s.a.log[sn] in s.a.e.sndBuf || Holds(s.b.e, s.a.log, sn);
    }
  }
}
