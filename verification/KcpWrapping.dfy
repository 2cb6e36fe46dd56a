/** 32-bit sequence numbers: what the wrapping comparisons of src/ikcp.c say about numbers that
    are less than 2^31 apart. */
module KcpWrapping {
  import opened Bytes
  import opened KcpEndpoint
  import opened KcpBuffers

  const M := 0x1_0000_0000
  const HALF := 0x8000_0000

  /** The 32 bits of a number. */
  function W(x: int): (r: nat)
    ensures r < M
  {
    x % M
  }

  /** `_itimediff`: the difference as a signed 32-bit number. */
  function Diff(later: nat, earlier: nat): (d: int)
    ensures -HALF <= d < HALF
  {
    var d := W(later - earlier);
    if d < HALF then d else d - M
  }

  /** The wrapped difference is the true one when that fits. */
  lemma DiffTrue(x: int, y: int)
    requires -HALF <= x - y < HALF
    ensures Diff(W(x), W(y)) == x - y
  {
    WrapDifference(x, y);
  }

  lemma WrapDifference(x: int, y: int)
    ensures W(W(x) - W(y)) == W(x - y)
  {
    assert x == x / M * M + W(x) && y == y / M * M + W(y);
    WrapShift(W(x) - W(y), x / M - y / M);
  }

  lemma WrapShift(d: int, q: int)
    ensures W(d + q * M) == W(d)
  {
    var r := W(d);
    assert d + q * M == (d / M + q) * M + r;
    Unique(d + q * M, d / M + q, r);
  }

  lemma Unique(x: int, q: int, r: nat)
    requires x == q * M + r && r < M
    ensures W(x) == r
  {}

  lemma WrapSum(x: int, y: int)
    ensures W(W(x) + y) == W(x + y)
  {
    assert x == x / M * M + W(x);
    WrapShift(W(x) + y, x / M);
  }

  /** Equal bits mean equal numbers when they are close. */
  lemma WrapEqual(x: int, y: int)
    requires -HALF <= x - y < HALF
    ensures W(x) == W(y) <==> x == y
  {
    DiffTrue(x, y);
  }

  // ---------- segments ----------

  function WSeg(s: Seg): Seg { s.(sn := W(s.sn)) }

  /** The buffer the code keeps for a buffer with unbounded numbers. */
  function WSegs(segs: seq<Seg>): (r: seq<Seg>)
    ensures |r| == |segs| && forall i :: 0 <= i < |r| ==> r[i] == WSeg(segs[i])
  {
    seq(|segs|, i requires 0 <= i < |segs| => WSeg(segs[i]))
  }

  function WWire(w: Wire): Wire { w.(sn := W(w.sn), una := W(w.una)) }

  function WWires(ws: seq<Wire>): (r: seq<Wire>)
    ensures |r| == |ws| && forall i :: 0 <= i < |r| ==> r[i] == WWire(ws[i])
  {
    seq(|ws|, i requires 0 <= i < |ws| => WWire(ws[i]))
  }

  function WPending(p: Pending): Pending { p.(sn := W(p.sn)) }

  function WAcks(acks: seq<Pending>): (r: seq<Pending>)
    ensures |r| == |acks| && forall i :: 0 <= i < |r| ==> r[i] == WPending(acks[i])
  {
    seq(|acks|, i requires 0 <= i < |acks| => WPending(acks[i]))
  }

  lemma WSegsJoin(a: seq<Seg>, b: seq<Seg>)
    ensures WSegs(a + b) == WSegs(a) + WSegs(b)
  {}

  lemma WSegsSlice(a: seq<Seg>, lo: nat, hi: nat)
    requires lo <= hi <= |a|
    ensures WSegs(a[lo..hi]) == WSegs(a)[lo..hi]
  {}

  // ---------- the endpoint ----------

  /** The windows are small enough for the comparisons to be right. */
  ghost predicate Windowed(e: Endpoint) {
    && e.una <= e.nxt < e.una + HALF && 0 < e.rcvWnd < HALF
    && Ascending(e.sndBuf) && (forall i :: 0 <= i < |e.sndBuf| ==> e.una <= e.sndBuf[i].sn < e.nxt)
    && Ascending(e.rcvBuf) && (forall i :: 0 <= i < |e.rcvBuf| ==> e.rcv <= e.rcvBuf[i].sn < e.rcv + e.rcvWnd)
  }

  ghost predicate Small(segs: seq<Seg>, mss: nat) {
    forall i :: 0 <= i < |segs| ==> |segs[i].data| <= mss && segs[i].frg < WND_RCV
  }

  /** What was queued fits a datagram and its header, and times are 32-bit numbers. */
  ghost predicate Fitting(e: Endpoint) {
    && Small(e.sndQueue, e.mss) && Small(e.sndBuf, e.mss)
    && (forall i :: 0 <= i < |e.acks| ==> e.acks[i].ts < M)
  }

  /** A number close enough to the sender's window. */
  ghost predicate NearSender(e: Endpoint, sn: nat) { e.nxt - HALF <= sn < e.una + HALF }

  /** A number close enough to the receiver's window. */
  ghost predicate NearReceiver(e: Endpoint, sn: nat) { e.rcv + e.rcvWnd - HALF <= sn < e.rcv + HALF }

  /** The numbers of a segment are close enough when it arrives. */
  ghost predicate Near(e: Endpoint, w: Wire) {
    && NearSender(e, w.una) && w.ts < M
    && (w.cmd == Ack ==> NearSender(Shrink(ParseUna(e, w.una)), w.sn))
    && (w.cmd == Push ==> NearReceiver(e, w.sn))
  }

  ghost predicate AllNear(e: Endpoint, ws: seq<Wire>) {
    ws == [] || (AllNear(e, ws[..|ws| - 1]) && Near(InputAll(e, ws[..|ws| - 1]), ws[|ws| - 1]))
  }

  // ---------- the steps keep the windows ----------

  ghost predicate Inside(buf: seq<Seg>, lo: nat, hi: nat) {
    Ascending(buf) && forall s: Seg :: s in buf ==> lo <= s.sn < hi
  }

  lemma InsideAt(buf: seq<Seg>, lo: nat, hi: nat)
    ensures Inside(buf, lo, hi) <==> Ascending(buf) && forall i :: 0 <= i < |buf| ==> lo <= buf[i].sn < hi
  {
    assert forall i :: 0 <= i < |buf| ==> buf[i] in buf;
    if Ascending(buf) && forall i :: 0 <= i < |buf| ==> lo <= buf[i].sn < hi {
      forall s: Seg | s in buf
        ensures lo <= s.sn < hi
      {
        var i :| 0 <= i < |buf| && buf[i] == s;
      }
    }
  }

  lemma ShrinkWindowed(e: Endpoint)
    requires Windowed(e)
    ensures Windowed(Shrink(e))
  {}

  lemma ParseUnaWindowed(e: Endpoint, una: nat)
    requires Windowed(e)
    ensures Windowed(ParseUna(e, una))
  {
    InsideAt(e.sndBuf, e.una, e.nxt);
    DropBelowExact(e.sndBuf, una);
    InsideAt(DropBelow(e.sndBuf, una), e.una, e.nxt);
  }

  lemma ParseAckWindowed(e: Endpoint, sn: nat)
    requires Windowed(e)
    ensures Windowed(ParseAck(e, sn))
  {
    InsideAt(e.sndBuf, e.una, e.nxt);
    WithoutExact(e.sndBuf, sn);
    InsideAt(Without(e.sndBuf, sn), e.una, e.nxt);
  }

  lemma InsertWindowed(e: Endpoint, seg: Seg)
    requires Windowed(e) && e.rcv <= seg.sn < e.rcv + e.rcvWnd
    ensures Windowed(e.(rcvBuf := Insert(e.rcvBuf, seg)))
  {
    InsideAt(e.rcvBuf, e.rcv, e.rcv + e.rcvWnd);
    InsertExact(e.rcvBuf, seg);
    InsideAt(Insert(e.rcvBuf, seg), e.rcv, e.rcv + e.rcvWnd);
  }

  lemma FlushWindowed(e: Endpoint, t: Timing)
    requires Windowed(e) && t.cwnd < HALF
    ensures Windowed(AfterFlush(e, t))
  {
    var more := Assigned(e, t.cwnd);
    var buf := e.sndBuf + more;
    forall i | 0 <= i < |buf|
      ensures buf[i].sn == if i < |e.sndBuf| then e.sndBuf[i].sn else e.nxt + i - |e.sndBuf|
    {
    }
  }

  // ---------- the steps keep what fits ----------

  lemma ParseUnaFitting(e: Endpoint, una: nat)
    requires Windowed(e) && Fitting(e)
    ensures Fitting(ParseUna(e, una))
  {
    DropBelowExact(e.sndBuf, una);
    hide DropBelow;
    var r := ParseUna(e, una);
    assert forall i :: 0 <= i < |r.sndBuf| ==> r.sndBuf[i] in r.sndBuf;
  }

  lemma ParseAckFitting(e: Endpoint, sn: nat)
    requires Windowed(e) && Fitting(e)
    ensures Fitting(ParseAck(e, sn))
  {
    WithoutExact(e.sndBuf, sn);
    hide Without;
    var r := ParseAck(e, sn);
    assert forall i :: 0 <= i < |r.sndBuf| ==> r.sndBuf[i] in r.sndBuf;
  }

  lemma FlushFitting(e: Endpoint, t: Timing)
    requires Fitting(e)
    ensures Fitting(AfterFlush(e, t))
  {}

  lemma {:induction false} FragmentsFitting(data: seq<Byte>, mss: nat, count: nat, stream: bool)
    requires count < WND_RCV
    ensures forall i :: 0 <= i < count ==>
              |Fragments(data, mss, count, stream)[i].data| <= mss && Fragments(data, mss, count, stream)[i].frg < WND_RCV
    decreases count
  {
    if count > 0 {
      FragmentsFitting(data[if |data| > mss then mss else |data|..], mss, count - 1, stream);
    }
  }

  lemma SmallJoin(a: seq<Seg>, b: seq<Seg>, mss: nat)
    requires Small(a, mss) && Small(b, mss)
    ensures Small(a + b, mss)
  {}

  lemma RefilledSmall(e: Endpoint, data: seq<Byte>)
    requires Small(e.sndQueue, e.mss)
    ensures Small(Refilled(e, data), e.mss)
  {}

  lemma SendFitting(e: Endpoint, data: seq<Byte>)
    requires Windowed(e) && Fitting(e) && e.mss > 0
    ensures Windowed(SendData(e, data).e) && Fitting(SendData(e, data).e)
  {
    var rest := data[Taken(e, |data|)..];
    var count := Count(|rest|, e.mss);
    RefilledSmall(e, data);
    if count < WND_RCV {
      FragmentsFitting(rest, e.mss, count, e.stream);
      SmallJoin(Refilled(e, data), Fragments(rest, e.mss, count, e.stream), e.mss);
    }
    hide Count, Fragments, Refilled, Taken, Small;
  }
}
