/** Two KCP endpoints and a channel that may drop, duplicate and reorder: no segment is lost. */
module KcpNoLoss {
  import opened Bytes
  import opened KcpEndpoint
  import opened KcpBuffers

  // ---------- one direction ----------

  /** The log holds every segment the sender has numbered. */
  ghost predicate LogOk(log: seq<Seg>) {
    forall i :: 0 <= i < |log| ==> log[i].sn == i
  }

  /** The buffer is ascending and holds segments of the log, numbered lo and up. */
  ghost predicate FromLog(buf: seq<Seg>, log: seq<Seg>, lo: nat) {
    Ascending(buf) && forall s: Seg :: s in buf ==> lo <= s.sn < |log| && s == log[s.sn]
  }

  /** What the sending half keeps. */
  ghost predicate SenderOk(e: Endpoint, log: seq<Seg>) {
    && LogOk(log) && |log| == e.nxt && FromLog(e.sndBuf, log, e.una) && e.una <= e.nxt
    && e.una == (if e.sndBuf == [] then e.nxt else e.sndBuf[0].sn)
  }

  /** What the receiving half keeps: data read so far and the queue are the log up to rcv. */
  ghost predicate ReceiverOk(e: Endpoint, log: seq<Seg>, read: seq<Seg>) {
    && e.rcv <= |log| && read + e.rcvQueue == log[..e.rcv]
    && FromLog(e.rcvBuf, log, e.rcv)
  }

  /** The receiver has segment sn, in order or not. */
  ghost predicate Holds(e: Endpoint, log: seq<Seg>, sn: nat) {
    sn < |log| && (sn < e.rcv || log[sn] in e.rcvBuf)
  }

  /** Data on the wire is of the log. */
  ghost predicate DataOk(net: set<Wire>, log: seq<Seg>) {
    forall w :: w in net && w.cmd == Push ==> w.sn < |log| && Seg(w.sn, w.frg, w.data) == log[w.sn]
  }

  /** Acknowledgements, on the wire or pending, are of segments the receiver has. */
  ghost predicate AcksOk(net: set<Wire>, e: Endpoint, log: seq<Seg>) {
    && (forall w :: w in net ==> w.una <= e.rcv)
    && (forall w :: w in net && w.cmd == Ack ==> Holds(e, log, w.sn))
    && (forall i :: 0 <= i < |e.acks| ==> Holds(e, log, e.acks[i].sn))
  }

  /** Every numbered segment is still with the sender or already with the receiver. */
  ghost predicate NothingLost(s: Endpoint, r: Endpoint, log: seq<Seg>) {
    forall sn :: 0 <= sn < |log| ==> log[sn] in s.sndBuf || Holds(r, log, sn)
  }

  /** The invariant of one direction, from s to r. */
  ghost predicate Link(s: Endpoint, r: Endpoint, there: set<Wire>, back: set<Wire>, log: seq<Seg>, read: seq<Seg>) {
    && SenderOk(s, log) && ReceiverOk(r, log, read)
    && DataOk(there, log) && AcksOk(back, r, log) && NothingLost(s, r, log)
  }

  // ---------- the sender's steps ----------

  /** The number that `ikcp_shrink_buf` finds. */
  lemma ShrinkOk(e: Endpoint, log: seq<Seg>)
    requires LogOk(log) && |log| == e.nxt && FromLog(e.sndBuf, log, e.una) && e.una <= e.nxt
    ensures SenderOk(Shrink(e), log)
  {
    if e.sndBuf != [] {
      assert e.sndBuf[0] in e.sndBuf;
      forall s: Seg | s in e.sndBuf
        ensures e.sndBuf[0].sn <= s.sn
      {
        var i :| 0 <= i < |e.sndBuf| && e.sndBuf[i] == s;
      }
    }
  }

  /** Removing what the receiver has keeps everything. */
  lemma RemoveOk(s: Endpoint, t: Endpoint, r: Endpoint, log: seq<Seg>)
    requires SenderOk(s, log) && NothingLost(s, r, log) && Ascending(t.sndBuf)
    requires t.una == s.una && t.nxt == s.nxt
    requires forall x: Seg :: x in t.sndBuf ==> x in s.sndBuf
    requires forall x: Seg :: x in s.sndBuf && x !in t.sndBuf ==> Holds(r, log, x.sn)
    ensures SenderOk(Shrink(t), log) && NothingLost(Shrink(t), r, log)
  {
    ShrinkOk(t, log);
    forall sn | 0 <= sn < |log|
      ensures log[sn] in t.sndBuf || Holds(r, log, sn)
    {
      assert log[sn].sn == sn;
    }
  }

  /** A segment that comes back: its una and its acknowledgement remove only what the receiver has. */
  lemma SenderInput(s: Endpoint, r: Endpoint, there: set<Wire>, back: set<Wire>, log: seq<Seg>, read: seq<Seg>, w: Wire)
    requires Link(s, r, there, back, log, read) && w in back
    ensures SenderOk(Input(s, w), log) && NothingLost(Input(s, w), r, log)
  {
    hide Holds, FromLog;
    var s1 := ParseUna(s.(rmtWnd := w.wnd), w.una);
    assert Ascending(s.sndBuf) by { FromLogAscending(s.sndBuf, log, s.una); }
    DropBelowExact(s.sndBuf, w.una);
    forall x: Seg | x in s.sndBuf && x !in s1.sndBuf
      ensures Holds(r, log, x.sn)
    {
      BelowHeld(s, r, log, x, w.una);
    }
    RemoveOk(s, s1, r, log);
    var s2 := Shrink(s1);
    if w.cmd == Ack {
      WithoutExact(s2.sndBuf, w.sn);
      RemoveOk(s2, ParseAck(s2, w.sn), r, log);
    } else {
      SenderCommand(s2, r, log, w);
    }
  }

  lemma FromLogAscending(buf: seq<Seg>, log: seq<Seg>, lo: nat)
    requires FromLog(buf, log, lo)
    ensures Ascending(buf)
  {}

  lemma BelowHeld(s: Endpoint, r: Endpoint, log: seq<Seg>, x: Seg, una: nat)
    requires SenderOk(s, log) && x in s.sndBuf && x.sn < una <= r.rcv
    ensures Holds(r, log, x.sn)
  {}

  /** The other commands do not touch the sending half. */
  lemma SenderCommand(e: Endpoint, r: Endpoint, log: seq<Seg>, w: Wire)
    requires SenderOk(e, log) && NothingLost(e, r, log) && w.cmd != Ack
    ensures SenderOk(Command(e, w), log) && NothingLost(Command(e, w), r, log)
  {
    hide Holds, FromLog, Ready, Insert;
    var c := Command(e, w);
    assert c.sndBuf == e.sndBuf && c.una == e.una && c.nxt == e.nxt;
  }

  // ---------- the receiver's steps ----------

  /** What the receiver has stays, whatever it reads or receives. */
  ghost predicate Keeps(r: Endpoint, r': Endpoint, log: seq<Seg>) {
    r.rcv <= r'.rcv && forall sn :: Holds(r, log, sn) ==> Holds(r', log, sn)
  }

  /** Moving the ready run keeps the receiving half in order. */
  lemma MoveReadyOk(e: Endpoint, log: seq<Seg>, read: seq<Seg>)
    requires LogOk(log) && ReceiverOk(e, log, read)
    ensures ReceiverOk(MoveReady(e), log, read) && Keeps(e, MoveReady(e), log)
  {
    var r, buf := Ready(e.rcvBuf, e.rcv, Room(e)), e.rcvBuf;
    ReadyRun(buf, e.rcv, Room(e));
    RunOfLog(buf, log, e.rcv, r);
    MoveBuffer(buf, r, log, e.rcv);
    hide Ready, FromLog;
    assert (read + e.rcvQueue) + buf[..r] == read + (e.rcvQueue + buf[..r]);
  }

  lemma RunOfLog(buf: seq<Seg>, log: seq<Seg>, rcv: nat, r: nat)
    requires FromLog(buf, log, rcv) && rcv <= |log| && r <= |buf| && forall i :: 0 <= i < r ==> buf[i].sn == rcv + i
    ensures rcv + r <= |log| && log[..rcv] + buf[..r] == log[..rcv + r]
  {
    forall i | 0 <= i < r
      ensures rcv + i < |log| && buf[i] == log[rcv + i]
    {
      assert buf[i] in buf;
    }
    if r > 0 { assert buf[r - 1].sn == rcv + r - 1; }
  }

  lemma MoveBuffer(buf: seq<Seg>, r: nat, log: seq<Seg>, rcv: nat)
    requires FromLog(buf, log, rcv) && r <= |buf| && forall i :: 0 <= i < r ==> buf[i].sn == rcv + i
    ensures FromLog(buf[r..], log, rcv + r)
    ensures forall s: Seg :: s in buf ==> s in buf[r..] || s.sn < rcv + r
  {
    forall s: Seg | s in buf[r..]
      ensures s in buf && s.sn >= rcv + r
    {
      var i :| r <= i < |buf| && buf[i] == s;
      if r > 0 { assert buf[r - 1].sn < buf[i].sn; }
    }
  }

  /** New data in the window. */
  lemma ParseDataOk(e: Endpoint, log: seq<Seg>, read: seq<Seg>, seg: Seg)
    requires LogOk(log) && ReceiverOk(e, log, read) && seg.sn < |log| && seg == log[seg.sn]
    ensures ReceiverOk(ParseData(e, seg), log, read) && Keeps(e, ParseData(e, seg), log)
    ensures seg.sn < e.rcv + e.rcvWnd ==> Holds(ParseData(e, seg), log, seg.sn)
  {
    if e.rcv <= seg.sn < e.rcv + e.rcvWnd {
      InsertExact(e.rcvBuf, seg);
      var e1 := e.(rcvBuf := Insert(e.rcvBuf, seg));
      hide Insert, MoveReady;
      NumberHeld(e.rcvBuf, log, e.rcv, seg);
      MoveReadyOk(e1, log, read);
    }
  }

  lemma NumberHeld(buf: seq<Seg>, log: seq<Seg>, lo: nat, seg: Seg)
    requires FromLog(buf, log, lo) && seg.sn < |log| && seg == log[seg.sn]
    ensures HasNumber(buf, seg.sn) ==> seg in buf
  {
    if i :| 0 <= i < |buf| && buf[i].sn == seg.sn { assert buf[i] in buf; }
  }

  ghost predicate PendingOk(e: Endpoint, log: seq<Seg>) {
    forall i :: 0 <= i < |e.acks| ==> Holds(e, log, e.acks[i].sn)
  }

  /** A segment that arrives: what is acknowledged is held. */
  lemma ReceiverInput(r: Endpoint, log: seq<Seg>, read: seq<Seg>, w: Wire)
    requires LogOk(log) && ReceiverOk(r, log, read) && PendingOk(r, log)
    requires w.cmd == Push ==> w.sn < |log| && Seg(w.sn, w.frg, w.data) == log[w.sn]
    ensures ReceiverOk(Input(r, w), log, read) && Keeps(r, Input(r, w), log) && PendingOk(Input(r, w), log)
  {
    hide DropBelow, Without, ParseData, FromLog;
    var e := Shrink(ParseUna(r.(rmtWnd := w.wnd), w.una));
    if w.cmd == Push && w.sn < e.rcv + e.rcvWnd {
      var e1 := e.(acks := e.acks + [Pending(w.sn, w.ts)]);
      var seg := Seg(w.sn, w.frg, w.data);
      assert ReceiverOk(e1, log, read);
      ParseDataOk(e1, log, read, seg);
      ParseDataAcks(e1, seg);
    }
  }

  lemma ParseDataAcks(e: Endpoint, seg: Seg)
    ensures ParseData(e, seg).acks == e.acks
  {}

  /** What was acknowledged or left the sender stays so. */
  lemma KeepsAcks(r: Endpoint, r': Endpoint, s: Endpoint, back: set<Wire>, log: seq<Seg>)
    requires Keeps(r, r', log) && AcksOk(back, r, log) && PendingOk(r', log) && NothingLost(s, r, log)
    ensures AcksOk(back, r', log) && NothingLost(s, r', log)
  {
    hide Holds;
  }

  /** Reading takes from the front of the queue and lets the ready run follow. */
  lemma ReceiverReads(r: Endpoint, log: seq<Seg>, read: seq<Seg>, len: nat, peek: bool)
    requires LogOk(log) && ReceiverOk(r, log, read) && PendingOk(r, log)
    ensures var o := Recv(r, len, peek);
            ReceiverOk(o.e, log, read + o.read) && Keeps(r, o.e, log) && PendingOk(o.e, log)
  {
    hide FromLog, MoveReady, PeekSize;
    var o := Recv(r, len, peek);
    assert read + [] == read;
    var n := MessageEnd(r.rcvQueue);
    var e1 := if peek then r else r.(rcvQueue := r.rcvQueue[n..]);
    var taken := if peek then [] else r.rcvQueue[..n];
    assert taken + e1.rcvQueue == r.rcvQueue;
    assert read + taken + e1.rcvQueue == read + (taken + e1.rcvQueue);
    MoveReadyOk(e1, log, read + taken);
    MoveReadyAcks(e1);
  }

  lemma MoveReadyAcks(e: Endpoint)
    ensures MoveReady(e).acks == e.acks
  {}

  // ---------- flushing ----------

  /** The log after a flush. */
  ghost function LogAfter(e: Endpoint, log: seq<Seg>, t: Timing): seq<Seg> { log + Assigned(e, t.cwnd) }

  ghost function WireSet(ws: seq<Wire>): set<Wire> { set w | w in ws }

  /** The log only grows at its end, so everything said about it stays true. */
  lemma LogGrows(log: seq<Seg>, more: seq<Seg>, r: Endpoint, read: seq<Seg>, there: set<Wire>, back: set<Wire>)
    requires ReceiverOk(r, log, read) && DataOk(there, log) && AcksOk(back, r, log)
    ensures ReceiverOk(r, log + more, read) && DataOk(there, log + more) && AcksOk(back, r, log + more)
    ensures forall sn: nat :: Holds(r, log, sn) ==> Holds(r, log + more, sn)
  {
    assert (log + more)[..r.rcv] == log[..r.rcv];
    forall sn: nat | Holds(r, log, sn)
      ensures Holds(r, log + more, sn)
    {
      assert (log + more)[sn] == log[sn];
    }
  }

  /** The sending half after a flush, with its new log. */
  lemma SenderFlushes(s: Endpoint, log: seq<Seg>, t: Timing)
    requires SenderOk(s, log)
    ensures SenderOk(AfterFlush(s, t), LogAfter(s, log, t))
    ensures forall x: Seg :: x in s.sndBuf || x in Assigned(s, t.cwnd) ==> x in AfterFlush(s, t).sndBuf
  {
    var more := Assigned(s, t.cwnd);
    NumberedFromLog(s.sndBuf, log, more, s.una);
    hide FromLog, LogOk, Numbered;
    if s.sndBuf == [] && more != [] { assert (s.sndBuf + more)[0] == more[0]; }
  }

  /** Newly numbered segments go to the end of the log and of the buffer. */
  lemma NumberedFromLog(buf: seq<Seg>, log: seq<Seg>, more: seq<Seg>, lo: nat)
    requires FromLog(buf, log, lo) && lo <= |log| && forall i :: 0 <= i < |more| ==> more[i].sn == |log| + i
    ensures FromLog(buf + more, log + more, lo) && (LogOk(log) ==> LogOk(log + more))
  {
    var log', all := log + more, buf + more;
    forall i | 0 <= i < |all|
      ensures lo <= all[i].sn < |log'| && all[i] == log'[all[i].sn]
      ensures i < |buf| ==> all[i].sn < |log|
      ensures i >= |buf| ==> all[i].sn == |log| + i - |buf|
    {
      if i < |buf| { assert all[i] == buf[i] && buf[i] in buf; }
    }
    forall i, j | 0 <= i < j < |all|
      ensures all[i].sn < all[j].sn
    {
      if j < |buf| { assert all[i] == buf[i] && all[j] == buf[j]; }
    }
  }

  /** The data among what a flush sends is from the send buffer. */
  lemma {:induction false} PushesFrom(buf: seq<Seg>, due: seq<bool>, wnd: nat, una: nat, now: nat, i: nat, w: Wire)
    requires i <= |buf| && w in Pushes(buf, due, wnd, una, now, i)
    ensures w.cmd == Push && w.una == una && Seg(w.sn, w.frg, w.data) in buf
  {
    if w in Pushes(buf, due, wnd, una, now, i - 1) {
      PushesFrom(buf, due, wnd, una, now, i - 1, w);
    } else {
      assert buf[i - 1] in buf;
    }
  }

  /** Everything a flush sends: data of its buffer, acknowledgements that were pending, and una = rcv. */
  lemma FlushedOk(e: Endpoint, t: Timing, w: Wire)
    requires w in Flushed(e, t)
    ensures w.una == e.rcv
    ensures w.cmd == Push ==> Seg(w.sn, w.frg, w.data) in AfterFlush(e, t).sndBuf
    ensures w.cmd == Ack ==> exists i :: 0 <= i < |e.acks| && e.acks[i].sn == w.sn
  {
    var buf := AfterFlush(e, t).sndBuf;
    if w in Pushes(buf, t.due, Room(e), e.rcv, t.now, |buf|) {
      PushesFrom(buf, t.due, Room(e), e.rcv, t.now, |buf|, w);
    } else if w in AckWires(e.acks, Room(e), e.rcv) {
      var i :| 0 <= i < |e.acks| && AckWires(e.acks, Room(e), e.rcv)[i] == w;
      assert e.acks[i].sn == w.sn;
    }
  }

  /** A flush at the sender keeps the link, with the newly numbered segments in the log. */
  lemma FlushAtSender(s: Endpoint, r: Endpoint, there: set<Wire>, back: set<Wire>, log: seq<Seg>, read: seq<Seg>, t: Timing)
    requires Link(s, r, there, back, log, read)
    ensures Link(AfterFlush(s, t), r, there + WireSet(Flushed(s, t)), back, LogAfter(s, log, t), read)
  {
    var s', log' := AfterFlush(s, t), LogAfter(s, log, t);
    SenderFlushes(s, log, t);
    LogGrows(log, Assigned(s, t.cwnd), r, read, there, back);
    forall w | w in WireSet(Flushed(s, t)) && w.cmd == Push
      ensures w.sn < |log'| && Seg(w.sn, w.frg, w.data) == log'[w.sn]
    {
      FlushedOk(s, t, w);
    }
    hide Flushed, AfterFlush, FromLog, Holds;
    forall sn | 0 <= sn < |log'|
      ensures log'[sn] in s'.sndBuf || Holds(r, log', sn)
    {
      if sn < |log| {
        assert log'[sn] == log[sn];
      } else {
        assert log'[sn] == Assigned(s, t.cwnd)[sn - |log|];
      }
    }
  }

  /** A flush at the receiver sends acknowledgements of what it has. */
  lemma FlushAtReceiver(s: Endpoint, r: Endpoint, there: set<Wire>, back: set<Wire>, log: seq<Seg>, read: seq<Seg>, t: Timing)
    requires Link(s, r, there, back, log, read)
    ensures Link(s, AfterFlush(r, t), there, back + WireSet(Flushed(r, t)), log, read)
  {
    var r' := AfterFlush(r, t);
    assert forall sn :: Holds(r, log, sn) <==> Holds(r', log, sn);
    forall w | w in WireSet(Flushed(r, t))
      ensures w.una <= r'.rcv && (w.cmd == Ack ==> Holds(r', log, w.sn))
    {
      FlushedOk(r, t, w);
    }
    hide Flushed, FromLog;
  }
}
