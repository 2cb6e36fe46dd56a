/** One end of the KCP protocol of src/ikcp.c on values, with unbounded sequence numbers.
    What the timers and the congestion window decide comes in as arguments of `Flush`. */
module KcpEndpoint {
  import opened Bytes

  const WND_RCV := 128   // IKCP_WND_RCV

  /** IKCPSEG: number, fragments still to follow, data. */
  datatype Seg = Seg(sn: nat, frg: nat, data: seq<Byte>)

  datatype Cmd = Push | Ack | Wask | Wins

  /** A segment on the wire. */
  datatype Wire = Wire(cmd: Cmd, frg: nat, wnd: nat, ts: nat, sn: nat, una: nat, data: seq<Byte>)

  /** An acknowledgement to be sent. */
  datatype Pending = Pending(sn: nat, ts: nat)

  datatype Endpoint = Endpoint(mss: nat, stream: bool, rcvWnd: nat,
                               una: nat, nxt: nat, rcv: nat, rmtWnd: nat,
                               sndQueue: seq<Seg>, sndBuf: seq<Seg>, rcvBuf: seq<Seg>, rcvQueue: seq<Seg>,
                               acks: seq<Pending>, ask: bool, tell: bool)

  /** `ikcp_create` with its default or wider windows. */
  function Fresh(mss: nat, stream: bool, rcvWnd: nat): Endpoint {
    Endpoint(mss, stream, rcvWnd, 0, 0, 0, WND_RCV, [], [], [], [], [], false, false)
  }

  // ---------- sending ----------

  /** The bytes of some segments. */
  function Data(segs: seq<Seg>): seq<Byte> {
    if segs == [] then [] else segs[0].data + Data(segs[1..])
  }

  /** How many segments a message needs. */
  function Count(len: nat, mss: nat): (c: nat)
    requires mss > 0
    ensures c >= 1
  {
    if len <= mss then 1 else (len + mss - 1) / mss
  }

  /** The segments of a message, or of a piece of the stream. */
  function Fragments(data: seq<Byte>, mss: nat, count: nat, stream: bool): (f: seq<Seg>)
    ensures |f| == count
    decreases count
  {
    if count == 0 then []
    else
      var size := if |data| > mss then mss else |data|;
      [Seg(0, if stream then 0 else count - 1, data[..size])] + Fragments(data[size..], mss, count - 1, stream)
  }

  /** Streaming fills the last queued segment first: how many bytes go there. */
  function Extension(queue: seq<Seg>, mss: nat, len: nat): (x: nat)
    ensures x <= len
  {
    if queue == [] || |queue[|queue| - 1].data| >= mss then 0
    else
      var room := mss - |queue[|queue| - 1].data|;
      if len < room then len else room
  }

  function Extended(queue: seq<Seg>, more: seq<Byte>): seq<Seg>
    requires queue != []
  {
    var last := queue[|queue| - 1];
    queue[..|queue| - 1] + [Seg(last.sn, 0, last.data + more)]
  }

  /** The bytes that streaming puts into the last queued segment. */
  function Taken(e: Endpoint, len: nat): (x: nat)
    ensures x <= len
  {
    if e.stream then Extension(e.sndQueue, e.mss, len) else 0
  }

  function Refilled(e: Endpoint, data: seq<Byte>): seq<Seg> {
    if e.stream && e.sndQueue != [] && |e.sndQueue[|e.sndQueue| - 1].data| < e.mss
    then Extended(e.sndQueue, data[..Taken(e, |data|)]) else e.sndQueue
  }

  /** What `ikcp_send` returns. */
  datatype SendResult = SendResult(e: Endpoint, code: int)

  /** `ikcp_send` */
  function SendData(e: Endpoint, data: seq<Byte>): SendResult
    requires e.mss > 0
  {
    var x, queue := Taken(e, |data|), Refilled(e, data);
    var rest := data[x..];
    var count := Count(|rest|, e.mss);
    if e.stream && rest == [] then SendResult(e.(sndQueue := queue), x)
    else if count >= WND_RCV then
      SendResult(e.(sndQueue := queue), if e.stream && x > 0 then x else -2)
    else
      SendResult(e.(sndQueue := queue + Fragments(rest, e.mss, count, e.stream)), |data|)
  }

  // ---------- acknowledgements ----------

  /** `ikcp_parse_una` on the send buffer. */
  function DropBelow(buf: seq<Seg>, una: nat): seq<Seg> {
    if buf != [] && buf[0].sn < una then DropBelow(buf[1..], una) else buf
  }

  /** The search of `ikcp_parse_ack`, which stops at the first larger number. */
  function Without(buf: seq<Seg>, sn: nat): seq<Seg> {
    if buf == [] || sn < buf[0].sn then buf
    else if buf[0].sn == sn then buf[1..]
    else [buf[0]] + Without(buf[1..], sn)
  }

  /** `ikcp_shrink_buf` */
  function Shrink(e: Endpoint): Endpoint {
    e.(una := if e.sndBuf == [] then e.nxt else e.sndBuf[0].sn)
  }

  function ParseUna(e: Endpoint, una: nat): Endpoint { e.(sndBuf := DropBelow(e.sndBuf, una)) }

  function ParseAck(e: Endpoint, sn: nat): Endpoint {
    if sn < e.una || sn >= e.nxt then e else e.(sndBuf := Without(e.sndBuf, sn))
  }

  // ---------- receiving ----------

  /** Insertion that searches from the back and drops repeated numbers. */
  function Insert(buf: seq<Seg>, seg: Seg): seq<Seg> {
    if buf == [] then [seg]
    else
      var last := buf[|buf| - 1];
      if last.sn == seg.sn then buf
      else if seg.sn > last.sn then buf + [seg]
      else Insert(buf[..|buf| - 1], seg) + [last]
  }

  /** How many segments at the head of the buffer continue the queue and fit in it. */
  function Ready(buf: seq<Seg>, rcv: nat, room: nat): (r: nat)
    ensures r <= |buf| && r <= room
    decreases room
  {
    if room > 0 && buf != [] && buf[0].sn == rcv then 1 + Ready(buf[1..], rcv + 1, room - 1) else 0
  }

  function Room(e: Endpoint): nat { if |e.rcvQueue| < e.rcvWnd then e.rcvWnd - |e.rcvQueue| else 0 }

  /** Moves what is ready from the buffer to the queue. */
  function MoveReady(e: Endpoint): Endpoint {
    var r := Ready(e.rcvBuf, e.rcv, Room(e));
    e.(rcvBuf := e.rcvBuf[r..], rcvQueue := e.rcvQueue + e.rcvBuf[..r], rcv := e.rcv + r)
  }

  /** `ikcp_parse_data` */
  function ParseData(e: Endpoint, seg: Seg): Endpoint {
    if seg.sn >= e.rcv + e.rcvWnd || seg.sn < e.rcv then e
    else MoveReady(e.(rcvBuf := Insert(e.rcvBuf, seg)))
  }

  /** The commands of `ikcp_input`. */
  function Command(e: Endpoint, w: Wire): Endpoint {
    match w.cmd
    case Ack => Shrink(ParseAck(e, w.sn))
    case Push =>
      if w.sn < e.rcv + e.rcvWnd then
        var e1 := e.(acks := e.acks + [Pending(w.sn, w.ts)]);
        if w.sn >= e.rcv then ParseData(e1, Seg(w.sn, w.frg, w.data)) else e1
      else e
    case Wask => e.(tell := true)
    case Wins => e
  }

  /** One segment of `ikcp_input`. */
  function Input(e: Endpoint, w: Wire): Endpoint {
    Command(Shrink(ParseUna(e.(rmtWnd := w.wnd), w.una)), w)
  }

  function InputAll(e: Endpoint, ws: seq<Wire>): Endpoint {
    if ws == [] then e else Input(InputAll(e, ws[..|ws| - 1]), ws[|ws| - 1])
  }

  // ---------- flushing ----------

  /** What the timers decide in one flush: the congestion window, which of the segments that have
      been sent before are due again, whether a window probe is due, and the time. */
  datatype Timing = Timing(cwnd: nat, due: seq<bool>, probe: bool, now: nat)

  /** How many segments move to the send buffer. */
  function Moved(e: Endpoint, cwnd: nat): (m: nat)
    ensures m <= |e.sndQueue|
  {
    if e.nxt >= e.una + cwnd then 0
    else if e.una + cwnd - e.nxt < |e.sndQueue| then e.una + cwnd - e.nxt else |e.sndQueue|
  }

  /** They are numbered in order. */
  function Numbered(segs: seq<Seg>, first: nat): (r: seq<Seg>)
    ensures |r| == |segs| && forall i :: 0 <= i < |r| ==> r[i] == segs[i].(sn := first + i)
  {
    seq(|segs|, i requires 0 <= i < |segs| => segs[i].(sn := first + i))
  }

  function Assigned(e: Endpoint, cwnd: nat): seq<Seg> { Numbered(e.sndQueue[..Moved(e, cwnd)], e.nxt) }

  /** Is segment i of the send buffer sent? Those without a verdict have just been moved there. */
  predicate Selected(due: seq<bool>, i: nat) { i >= |due| || due[i] }

  /** The data segments among the first i of the buffer. */
  function Pushes(buf: seq<Seg>, due: seq<bool>, wnd: nat, una: nat, now: nat, i: nat): seq<Wire>
    requires i <= |buf|
  {
    if i == 0 then []
    else
      Pushes(buf, due, wnd, una, now, i - 1)
      + if Selected(due, i - 1) then [Wire(Push, buf[i - 1].frg, wnd, now, buf[i - 1].sn, una, buf[i - 1].data)] else []
  }

  function AckWires(acks: seq<Pending>, wnd: nat, una: nat): (ws: seq<Wire>)
    ensures |ws| == |acks| && forall i :: 0 <= i < |ws| ==> ws[i] == Wire(Ack, 0, wnd, acks[i].ts, acks[i].sn, una, [])
  {
    seq(|acks|, i requires 0 <= i < |acks| => Wire(Ack, 0, wnd, acks[i].ts, acks[i].sn, una, []))
  }

  /** A probe segment; it carries the number and time of the last acknowledgement, which the peer ignores. */
  function ProbeWire(e: Endpoint, cmd: Cmd): Wire {
    var last := if e.acks == [] then Pending(0, 0) else e.acks[|e.acks| - 1];
    Wire(cmd, 0, Room(e), last.ts, last.sn, e.rcv, [])
  }

  predicate Asks(e: Endpoint, t: Timing) { e.ask || (e.rmtWnd == 0 && t.probe) }

  function AfterFlush(e: Endpoint, t: Timing): Endpoint {
    e.(acks := [], ask := false, tell := false, nxt := e.nxt + Moved(e, t.cwnd),
       sndBuf := e.sndBuf + Assigned(e, t.cwnd), sndQueue := e.sndQueue[Moved(e, t.cwnd)..])
  }

  function Probes(e: Endpoint, t: Timing): seq<Wire> {
    (if Asks(e, t) then [ProbeWire(e, Wask)] else []) + (if e.tell then [ProbeWire(e, Wins)] else [])
  }

  /** Everything `ikcp_flush` sends, in order. */
  function Flushed(e: Endpoint, t: Timing): seq<Wire> {
    var buf := AfterFlush(e, t).sndBuf;
    AckWires(e.acks, Room(e), e.rcv) + Probes(e, t) + Pushes(buf, t.due, Room(e), e.rcv, t.now, |buf|)
  }

  /** The verdicts concern exactly the segments that have been sent before. */
  predicate TimingOk(e: Endpoint, t: Timing) { |t.due| == |e.sndBuf| }

  // ---------- reading ----------

  /** The length up to and including the first segment that ends a message. */
  function MessageEnd(queue: seq<Seg>): (n: nat)
    ensures n <= |queue|
    ensures forall i :: 0 <= i < n - 1 ==> queue[i].frg != 0
    ensures n < |queue| ==> n > 0 && queue[n - 1].frg == 0
  {
    if queue == [] then 0 else if queue[0].frg == 0 then 1 else 1 + MessageEnd(queue[1..])
  }

  /** `ikcp_peeksize` */
  function PeekSize(queue: seq<Seg>): int {
    if queue == [] then -1
    else if queue[0].frg == 0 then |queue[0].data|
    else if |queue| < queue[0].frg + 1 then -1
    else |Data(queue[..MessageEnd(queue)])|
  }

  datatype RecvResult = RecvResult(e: Endpoint, code: int, data: seq<Byte>, read: seq<Seg>)

  /** `ikcp_recv` with room for len bytes; a peek leaves the message where it is. */
  function Recv(e: Endpoint, len: nat, peek: bool): RecvResult {
    var size := PeekSize(e.rcvQueue);
    if e.rcvQueue == [] then RecvResult(e, -1, [], [])
    else if size < 0 then RecvResult(e, -2, [], [])
    else if size > len then RecvResult(e, -3, [], [])
    else
      var n := MessageEnd(e.rcvQueue);
      var e1 := if peek then e else e.(rcvQueue := e.rcvQueue[n..]);
      var e2 := MoveReady(e1);
      var recover := |e.rcvQueue| >= e.rcvWnd;
      RecvResult(e2.(tell := e2.tell || (recover && |e2.rcvQueue| < e2.rcvWnd)), size,
                 Data(e.rcvQueue[..n]), if peek then [] else e.rcvQueue[..n])
  }
}
