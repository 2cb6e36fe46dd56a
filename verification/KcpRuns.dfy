/** Runs of two KCP endpoints over a channel that may drop, duplicate and reorder segments. */
module KcpRuns {
  import opened Bytes
  import opened KcpEndpoint
  import opened KcpBuffers
  import opened KcpNoLoss

  /** One side: its endpoint, the segments it has numbered, those it has read, and what its user
      handed in and got out. */
  datatype Side = Side(e: Endpoint, log: seq<Seg>, read: seq<Seg>, accepted: seq<seq<Byte>>, got: seq<seq<Byte>>)

  datatype Event = Send(data: seq<Byte>) | Arrive(w: Wire) | Flush(t: Timing) | Read(len: nat, peek: bool)

  /** What is on the way never disappears from these sets: it may arrive any number of times, or never. */
  datatype Sys = Sys(a: Side, b: Side, toA: set<Wire>, toB: set<Wire>)

  ghost predicate Possible(x: Side, net: set<Wire>, ev: Event) {
    match ev
    case Send(_) => x.e.mss > 0
    case Arrive(w) => w in net
    case Flush(t) => TimingOk(x.e, t)
    case Read(_, _) => true
  }

  /** What one event does to the side where it happens. */
  ghost function Local(x: Side, ev: Event): Side
    requires ev.Send? ==> x.e.mss > 0
  {
    match ev
    case Send(data) =>
      var r := SendData(x.e, data);
      x.(e := r.e, accepted := if 0 <= r.code <= |data| then x.accepted + [data[..r.code]] else x.accepted)
    case Arrive(w) => x.(e := Input(x.e, w))
    case Flush(t) => x.(e := AfterFlush(x.e, t), log := LogAfter(x.e, x.log, t))
    case Read(len, peek) =>
      var r := Recv(x.e, len, peek);
      x.(e := r.e, read := x.read + r.read, got := if r.code >= 0 && !peek then x.got + [r.data] else x.got)
  }

  /** What it puts on the wire. */
  ghost function Output(x: Side, ev: Event): set<Wire> {
    match ev
    case Flush(t) => WireSet(Flushed(x.e, t))
    case Send(_) => {}
    case Arrive(_) => {}
    case Read(_, _) => {}
  }

  ghost function StepA(s: Sys, ev: Event): Sys
    requires Possible(s.a, s.toA, ev)
  {
    Sys(Local(s.a, ev), s.b, s.toA, s.toB + Output(s.a, ev))
  }

  function Swap(s: Sys): Sys { Sys(s.b, s.a, s.toB, s.toA) }

  /** One event at either side. */
  ghost predicate Next(s: Sys, s': Sys) {
    || (exists ev :: Possible(s.a, s.toA, ev) && s' == StepA(s, ev))
    || (exists ev :: Possible(s.b, s.toB, ev) && Swap(s') == StepA(Swap(s), ev))
  }

  ghost predicate FreshSide(x: Side) {
    x == Side(Fresh(x.e.mss, x.e.stream, x.e.rcvWnd), [], [], [], [])
  }

  ghost predicate Run(states: seq<Sys>) {
    && states != [] && FreshSide(states[0].a) && FreshSide(states[0].b) && states[0].toA == {} == states[0].toB
    && forall i :: 0 <= i < |states| - 1 ==> Next(states[i], states[i + 1])
  }

  // ---------- no loss ----------

  ghost predicate Linked(x: Side, y: Side, toX: set<Wire>, toY: set<Wire>) {
    Link(x.e, y.e, toY, toX, x.log, y.read)
  }

  ghost predicate SysOk(s: Sys) {
    Linked(s.a, s.b, s.toA, s.toB) && Linked(s.b, s.a, s.toB, s.toA)
  }

  /** An event at the sender of a link. */
  lemma SenderStep(x: Side, y: Side, toX: set<Wire>, toY: set<Wire>, ev: Event)
    requires Linked(x, y, toX, toY) && Possible(x, toX, ev)
    ensures Linked(Local(x, ev), y, toX, toY + Output(x, ev))
  {
    hide FromLog, Holds, Flushed, AfterFlush, Input, Recv, SendData;
    assert toY + {} == toY;
    match ev
    case Send(data) => { SendKeepsLink(x.e, data); }
    case Arrive(w) => {
      SenderInput(x.e, y.e, toY, toX, x.log, y.read, w);
    }
    case Flush(t) => { FlushAtSender(x.e, y.e, toY, toX, x.log, y.read, t); }
    case Read(len, peek) => { ReadKeepsSender(x.e, len, peek); }
  }

  lemma SendKeepsLink(e: Endpoint, data: seq<Byte>)
    requires e.mss > 0
    ensures SendData(e, data).e == e.(sndQueue := SendData(e, data).e.sndQueue)
  {}

  lemma ReadKeepsSender(e: Endpoint, len: nat, peek: bool)
    ensures var r := Recv(e, len, peek).e; r.sndBuf == e.sndBuf && r.una == e.una && r.nxt == e.nxt
  {
    hide PeekSize, Ready;
  }

  /** An event at the receiver of a link. */
  lemma ReceiverStep(x: Side, y: Side, toX: set<Wire>, toY: set<Wire>, ev: Event)
    requires Linked(y, x, toY, toX) && Possible(x, toX, ev)
    ensures Linked(y, Local(x, ev), toY + Output(x, ev), toX)
  {
    hide FromLog, Holds, Flushed, AfterFlush, Input, Recv, SendData, Keeps;
    assert toY + {} == toY;
    match ev
    case Send(data) => {
      SendKeepsLink(x.e, data);
      SameReceiver(x.e, Local(x, ev).e, y.log, x.read, toY);
      SameHeld(y.e, x.e, Local(x, ev).e, y.log);
    }
    case Arrive(w) => {
      ReceiverInput(x.e, y.log, x.read, w);
      KeepsAcks(x.e, Input(x.e, w), y.e, toY, y.log);
    }
    case Flush(t) => { FlushAtReceiver(y.e, x.e, toX, toY, y.log, x.read, t); }
    case Read(len, peek) => {
      ReceiverReads(x.e, y.log, x.read, len, peek);
      KeepsAcks(x.e, Recv(x.e, len, peek).e, y.e, toY, y.log);
    }
  }

  lemma SameReceiver(e: Endpoint, e': Endpoint, log: seq<Seg>, read: seq<Seg>, back: set<Wire>)
    requires ReceiverOk(e, log, read) && AcksOk(back, e, log) && e' == e.(sndQueue := e'.sndQueue)
    ensures ReceiverOk(e', log, read) && AcksOk(back, e', log)
  {}

  lemma SameHeld(s: Endpoint, e: Endpoint, e': Endpoint, log: seq<Seg>)
    requires NothingLost(s, e, log) && e' == e.(sndQueue := e'.sndQueue)
    ensures NothingLost(s, e', log)
  {}

  lemma StepOk(s: Sys, ev: Event)
    requires SysOk(s) && Possible(s.a, s.toA, ev)
    ensures SysOk(StepA(s, ev))
  {
    SenderStep(s.a, s.b, s.toA, s.toB, ev);
    ReceiverStep(s.a, s.b, s.toA, s.toB, ev);
    hide Linked, Local, Output;
  }

  lemma NextOk(s: Sys, s': Sys)
    requires SysOk(s) && Next(s, s')
    ensures SysOk(s')
  {
    hide Linked, StepA, Possible;
    if ev :| Possible(s.a, s.toA, ev) && s' == StepA(s, ev) {
      StepOk(s, ev);
    } else {
      var ev :| Possible(s.b, s.toB, ev) && Swap(s') == StepA(Swap(s), ev);
      StepOk(Swap(s), ev);
    }
  }

  lemma FreshLinked(x: Side, y: Side)
    requires FreshSide(x) && FreshSide(y)
    ensures Linked(x, y, {}, {})
  {}

  lemma {:induction false} RunOk(states: seq<Sys>, i: nat)
    requires Run(states) && i < |states|
    ensures SysOk(states[i])
  {
    if i == 0 {
      FreshLinked(states[0].a, states[0].b);
      FreshLinked(states[0].b, states[0].a);
    } else {
      RunOk(states, i - 1);
      assert Next(states[i - 1], states[i - 1 + 1]);
      NextOk(states[i - 1], states[i]);
    }
  }

  /** In every reachable state, in both directions: each numbered segment is still in the sender's
      buffer or held by the receiver, and what has been read, followed by the receive queue, is
      exactly the segments numbered below rcv. */
  lemma NoSegmentLost(states: seq<Sys>, i: nat)
    requires Run(states) && i < |states|
    ensures var s := states[i];
            && NothingLost(s.a.e, s.b.e, s.a.log) && s.b.e.rcv <= |s.a.log| == s.a.e.nxt
            && s.b.read + s.b.e.rcvQueue == s.a.log[..s.b.e.rcv]
            && NothingLost(s.b.e, s.a.e, s.b.log) && s.a.e.rcv <= |s.b.log| == s.b.e.nxt
            && s.a.read + s.a.e.rcvQueue == s.b.log[..s.a.e.rcv]
  {
    RunOk(states, i);
    hide NothingLost, FromLog;
  }
}
