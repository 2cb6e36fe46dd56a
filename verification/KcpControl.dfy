/** The KCP control block of src/ikcp.c with its 32-bit numbers.  Every method is proved to do to the
    unbounded endpoint `e` what the functions of `KcpEndpoint` say, as long as the numbers it is
    given are less than 2^31 away from its windows. */
module KcpControl {
  import opened Bytes
  import opened KcpEndpoint
  import opened KcpBuffers
  import opened KcpMessages
  import opened KcpWrapping
  import opened KcpWire

  class Kcp {
    const conv: nat
    const mtu: nat
    const mss: nat
    const stream: bool
    const rcvWnd: nat
    var sndUna: nat
    var sndNxt: nat
    var rcvNxt: nat
    var rmtWnd: nat
    var sndQueue: seq<Seg>
    var sndBuf: seq<Seg>
    var rcvBuf: seq<Seg>
    var rcvQueue: seq<Seg>
    var ackList: seq<Pending>
    var askSend: bool               // probe & IKCP_ASK_SEND
    var askTell: bool               // probe & IKCP_ASK_TELL
    const buffer: array<Byte>
    var output: seq<seq<Byte>>      // the datagrams handed to the output callback
    ghost var e: Endpoint

    /** The sending half. */
    ghost predicate SendingHalf()
      reads this
    {
      && mss == e.mss && stream == e.stream
      && sndUna == W(e.una) && sndNxt == W(e.nxt) && rmtWnd == e.rmtWnd
      && sndQueue == e.sndQueue && sndBuf == WSegs(e.sndBuf)
    }

    /** The receiving half. */
    ghost predicate ReceivingHalf()
      reads this
    {
      && rcvWnd == e.rcvWnd && rcvNxt == W(e.rcv)
      && rcvBuf == WSegs(e.rcvBuf) && rcvQueue == WSegs(e.rcvQueue)
      && ackList == WAcks(e.acks) && askSend == e.ask && askTell == e.tell
    }

    ghost predicate Valid()
      reads this
    {
      && OVERHEAD < mtu && mss == mtu - OVERHEAD && conv < M && 0 < rcvWnd < HALF && buffer.Length == (mtu + OVERHEAD) * 3
      && SendingHalf() && ReceivingHalf() && Windowed(e) && Fitting(e)
    }

    /** `ikcp_create` with its windows and mtu set. */
    constructor (conv: nat, mtu: nat, stream: bool, rcvWnd: nat)
      requires conv < M && OVERHEAD < mtu && 0 < rcvWnd < HALF
      ensures Valid() && e == Fresh(mtu - OVERHEAD, stream, rcvWnd) && this.conv == conv && this.mtu == mtu
      ensures output == [] && fresh(buffer)
    {
      this.conv, this.mtu, mss, this.stream, this.rcvWnd := conv, mtu, mtu - OVERHEAD, stream, rcvWnd;
      sndUna, sndNxt, rcvNxt, rmtWnd := 0, 0, 0, WND_RCV;
      sndQueue, sndBuf, rcvBuf, rcvQueue, ackList := [], [], [], [], [];
      askSend, askTell := false, false;
      buffer, output := new Byte[(mtu + OVERHEAD) * 3](i => 0), [];
      e := Fresh(mtu - OVERHEAD, stream, rcvWnd);
    }

    // ---------- acknowledgements ----------

    /** `ikcp_shrink_buf` */
    method ShrinkBuf()
      requires Valid()
      modifies this`sndUna, this`e
      ensures Valid() && e == Shrink(old(e))
    {
      ShrinkWindowed(e);
      if sndBuf != [] { sndUna := sndBuf[0].sn; } else { sndUna := sndNxt; }
      e := Shrink(e);
    }

    /** The loop of `ikcp_parse_una` over the buffer whose unbounded numbers are in `buf`. */
    method PopBelow(una: nat, ghost full: nat, ghost buf: seq<Seg>)
      requires una == W(full) && sndBuf == WSegs(buf)
      requires forall i :: 0 <= i < |buf| ==> -HALF <= full - buf[i].sn < HALF
      modifies this`sndBuf
      ensures sndBuf == WSegs(DropBelow(buf, full))
    {
      hide Diff, W;
      ghost var rest := buf;
      while sndBuf != []
        invariant sndBuf == WSegs(rest) && DropBelow(rest, full) == DropBelow(buf, full)
        invariant forall i :: 0 <= i < |rest| ==> -HALF <= full - rest[i].sn < HALF
        decreases |sndBuf|
      {
        DiffTrue(full, rest[0].sn);
        if Diff(una, sndBuf[0].sn) > 0 {
          sndBuf := sndBuf[1..];
          rest := rest[1..];
        } else {
          break;
        }
      }
    }

    /** `ikcp_parse_una`; `full` is the number that una stands for. */
    method ParseUna(una: nat, ghost full: nat)
      requires Valid() && una == W(full) && NearSender(e, full)
      modifies this`sndBuf, this`e
      ensures Valid() && e == KcpEndpoint.ParseUna(old(e), full)
    {
      hide DropBelow, Ascending;
      ParseUnaWindowed(e, full);
      ParseUnaFitting(e, full);
      PopBelow(una, full, e.sndBuf);
      e := KcpEndpoint.ParseUna(e, full);
    }

    /** The loop of `ikcp_parse_ack`. */
    method RemoveAcknowledged(sn: nat, ghost full: nat, ghost buf: seq<Seg>)
      requires sn == W(full) && sndBuf == WSegs(buf)
      requires forall i :: 0 <= i < |buf| ==> -HALF <= full - buf[i].sn < HALF
      modifies this`sndBuf
      ensures sndBuf == WSegs(Without(buf, full))
    {
      hide Diff, W, Without;
      var i := 0;
      assert buf[..0] + Without(buf[0..], full) == Without(buf, full) by { assert buf[0..] == buf; }
      while i < |sndBuf|
        invariant i <= |sndBuf| && sndBuf == WSegs(buf)
        invariant Without(buf, full) == buf[..i] + Without(buf[i..], full)
      {
        DiffTrue(full, buf[i].sn);
        WrapEqual(full, buf[i].sn);
        WithoutStep(buf, full, i);
        if sn == sndBuf[i].sn {
          sndBuf := sndBuf[..i] + sndBuf[i + 1..];
          return;
        }
        if Diff(sn, sndBuf[i].sn) < 0 {
          return;
        }
        i := i + 1;
      }
      WithoutEnd(buf, full);
    }

    /** `ikcp_parse_ack`; `full` is the number that sn stands for. */
    method ParseAck(sn: nat, ghost full: nat)
      requires Valid() && sn == W(full) && NearSender(e, full)
      modifies this`sndBuf, this`e
      ensures Valid() && e == KcpEndpoint.ParseAck(old(e), full)
    {
      hide Without, Ascending, Diff, W;
      DiffTrue(full, e.una);
      DiffTrue(full, e.nxt);
      ParseAckWindowed(e, full);
      ParseAckFitting(e, full);
      if Diff(sn, sndUna) < 0 || Diff(sn, sndNxt) >= 0 {
        return;
      }
      RemoveAcknowledged(sn, full, e.sndBuf);
      e := KcpEndpoint.ParseAck(e, full);
    }

    // ---------- data ----------

    /** The search and insertion of `ikcp_parse_data`. */
    method InsertSegment(seg: Seg, ghost full: Seg, ghost buf: seq<Seg>)
      requires seg == WSeg(full) && rcvBuf == WSegs(buf)
      requires forall i :: 0 <= i < |buf| ==> -HALF <= full.sn - buf[i].sn < HALF
      modifies this`rcvBuf
      ensures rcvBuf == WSegs(Insert(buf, full))
    {
      hide Diff, W, Insert;
      var i := |rcvBuf|;
      assert buf[..i] == buf && buf[i..] == [];
      while i > 0
        invariant i <= |rcvBuf| && rcvBuf == WSegs(buf)
        invariant Insert(buf, full) == Insert(buf[..i], full) + buf[i..]
      {
        DiffTrue(full.sn, buf[i - 1].sn);
        WrapEqual(full.sn, buf[i - 1].sn);
        InsertStep(buf, full, i);
        if rcvBuf[i - 1].sn == seg.sn {
          return;
        }
        if Diff(seg.sn, rcvBuf[i - 1].sn) > 0 {
          break;
        }
        i := i - 1;
      }
      InsertHere(buf, full, i);
      rcvBuf := rcvBuf[..i] + [seg] + rcvBuf[i..];
    }

    /** The loop that moves available data from the buffer to the queue. */
    method MoveReady()
      requires Valid()
      modifies this`rcvBuf, this`rcvQueue, this`rcvNxt, this`e
      ensures Valid() && e == KcpEndpoint.MoveReady(old(e))
    {
      hide KcpEndpoint.MoveReady, W, Ascending;
      while rcvBuf != []
        invariant Valid() && KcpEndpoint.MoveReady(e) == KcpEndpoint.MoveReady(old(e))
        decreases |rcvBuf|
      {
        MoveOneReady(e);
        WrapEqual(e.rcv, e.rcvBuf[0].sn);
        if rcvBuf[0].sn == rcvNxt && |rcvQueue| < rcvWnd {
          WrapSum(e.rcv, 1);
          rcvQueue := rcvQueue + [rcvBuf[0]];
          rcvBuf := rcvBuf[1..];
          rcvNxt := W(rcvNxt + 1);
          e := MovedOne(e);
        } else {
          return;
        }
      }
      NoneReady(e);
    }

    /** `ikcp_parse_data`; `full` is the segment with the number that seg.sn stands for. */
    method ParseData(seg: Seg, ghost full: Seg)
      requires Valid() && seg == WSeg(full) && NearReceiver(e, full.sn)
      modifies this`rcvBuf, this`rcvQueue, this`rcvNxt, this`e
      ensures Valid() && e == KcpEndpoint.ParseData(old(e), full)
    {
      hide W, Diff, Insert, KcpEndpoint.MoveReady, Ascending;
      DiffTrue(full.sn, e.rcv + e.rcvWnd);
      DiffTrue(full.sn, e.rcv);
      WrapSum(e.rcv, e.rcvWnd);
      if Diff(seg.sn, W(rcvNxt + rcvWnd)) >= 0 || Diff(seg.sn, rcvNxt) < 0 {
        return;
      }
      InsertWindowed(e, full);
      InsertSegment(seg, full, e.rcvBuf);
      e := e.(rcvBuf := Insert(e.rcvBuf, full));
      MoveReady();
    }

    // ---------- input ----------

    /** `ikcp_ack_push` */
    method AckPush(sn: nat, ts: nat, ghost full: nat)
      requires Valid() && sn == W(full) && ts < M
      modifies this`ackList, this`e
      ensures Valid() && e == old(e).(acks := old(e).acks + [Pending(full, ts)])
    {
      ackList := ackList + [Pending(sn, ts)];
      e := e.(acks := e.acks + [Pending(full, ts)]);
    }

    /** A data segment of `ikcp_input`. */
    method InputPush(w: Wire, ghost full: Wire)
      requires Valid() && w == WWire(full) && w.cmd == Push && NearReceiver(e, full.sn) && w.ts < M
      modifies this`rcvBuf, this`rcvQueue, this`rcvNxt, this`ackList, this`e
      ensures Valid() && e == KcpEndpoint.Command(old(e), full)
    {
      hide W, Diff, KcpEndpoint.ParseData, Ascending, Fitting;
      DiffTrue(full.sn, e.rcv + e.rcvWnd);
      DiffTrue(full.sn, e.rcv);
      WrapSum(e.rcv, e.rcvWnd);
      if Diff(w.sn, W(rcvNxt + rcvWnd)) < 0 {
        AckPush(w.sn, w.ts, full.sn);
        if Diff(w.sn, rcvNxt) >= 0 {
          ParseData(Seg(w.sn, w.frg, w.data), Seg(full.sn, full.frg, full.data));
        }
      }
    }

    /** What every segment of `ikcp_input` brings: the peer's window and what it has received. */
    method InputUna(wnd: nat, una: nat, ghost full: nat)
      requires Valid() && una == W(full) && NearSender(e, full)
      modifies this`rmtWnd, this`sndBuf, this`sndUna, this`e
      ensures Valid() && e == Shrink(KcpEndpoint.ParseUna(old(e).(rmtWnd := wnd), full))
    {
      hide W, KcpEndpoint.ParseUna, Shrink, Windowed, Fitting;
      FittingWindow(e, wnd);
      rmtWnd := wnd;
      e := e.(rmtWnd := wnd);
      NearWindow(old(e), wnd, full);
      ParseUna(una, full);
      ShrinkBuf();
    }

    /** The command of a segment. */
    method InputCommand(w: Wire, ghost full: Wire)
      requires Valid() && w == WWire(full) && w.ts < M
      requires (w.cmd == Ack ==> NearSender(e, full.sn)) && (w.cmd == Push ==> NearReceiver(e, full.sn))
      modifies this`sndBuf, this`sndUna, this`rcvBuf, this`rcvQueue, this`rcvNxt, this`ackList, this`askTell, this`e
      ensures Valid() && e == KcpEndpoint.Command(old(e), full)
    {
      match w.cmd
      case Ack =>
        hide W, KcpEndpoint.ParseAck, Shrink, KcpEndpoint.ParseData, Windowed, Fitting, NearSender;
        ParseAck(w.sn, full.sn);
        ShrinkBuf();
      case Push =>
        hide W, Windowed, Fitting, NearReceiver;
        InputPush(w, full);
      case Wask =>
        hide W, Windowed, Fitting;
        FittingWindow(e, w.wnd);
        askTell := true;
        e := e.(tell := true);
      case Wins =>
    }

    /** One segment of `ikcp_input`. */
    method InputSegment(w: Wire, ghost full: Wire)
      requires Valid() && w == WWire(full) && Near(e, full)
      modifies this`rmtWnd, this`sndBuf, this`sndUna, this`rcvBuf, this`rcvQueue, this`rcvNxt, this`ackList, this`askTell, this`e
      ensures Valid() && e == KcpEndpoint.Input(old(e), full)
    {
      hide Valid, W, KcpEndpoint.ParseUna, Shrink, KcpEndpoint.Command, NearSender, NearReceiver;
      NearAfter(e, full);
      InputUna(w.wnd, w.una, full.una);
      InputCommand(w, full);
    }

    /** The header of the next segment, checked. */
    method ReadSegment(rest: seq<Byte>) returns (code: int, w: Wire, size: nat)
      requires |rest| >= OVERHEAD
      ensures code != 0 ==> Parse(conv, rest) == Parsed([], code)
      ensures code == 0 ==> OVERHEAD <= size <= |rest|
      ensures code == 0 ==> Parse(conv, rest) == Parsed([w] + Parse(conv, rest[size..]).segments, Parse(conv, rest[size..]).code)
    {
      hide Field;
      var cmd, len := Field(rest, 4, 1), Field(rest, 20, 4);
      w, size := Wire(Wins, 0, 0, 0, 0, 0, []), 0;
      if Field(rest, 0, 4) != conv { return -1, w, size; }
      if len > |rest| - OVERHEAD || len >= 0x8000_0000 { return -2, w, size; }
      if !(81 <= cmd <= 84) { return -3, w, size; }
      w := Wire(KcpWire.Command(cmd), Field(rest, 5, 1), Field(rest, 6, 2), Field(rest, 8, 4), Field(rest, 12, 4),
                Field(rest, 16, 4), rest[OVERHEAD..OVERHEAD + len]);
      size := OVERHEAD + len;
      code := 0;
    }

    /** The loop of `ikcp_input`.  `full` are the segments of the datagram with the numbers their
        32 bits stand for; what precedes a broken segment is processed. */
    method Input(data: seq<Byte>, ghost full: seq<Wire>) returns (code: int)
      requires Valid() && Parse(conv, data).segments == WWires(full) && AllNear(e, full)
      modifies this`rmtWnd, this`sndBuf, this`sndUna, this`rcvBuf, this`rcvQueue, this`rcvNxt, this`ackList, this`askTell, this`e
      ensures Valid() && e == InputAll(old(e), full)
      ensures code == if |data| < OVERHEAD then -1 else Parse(conv, data).code
    {
      hide Valid, W, KcpEndpoint.Input, WWire, Near, Parse, AllNear, InputAll;
      ParseShort(conv);
      if |data| < OVERHEAD {
        NoInput(e, full);
        return -1;
      }
      var rest := data;
      ghost var done := 0;
      ghost var e0 := e;
      NoInput(e, full);
      assert full[0..] == full;
      while |rest| >= OVERHEAD
        invariant done <= |full| && Valid() && e == InputAll(e0, full[..done])
        invariant Parse(conv, rest).segments == WWires(full[done..]) && Parse(conv, rest).code == Parse(conv, data).code
        decreases |rest|
      {
        var w, size;
        code, w, size := ReadSegment(rest);
        if code != 0 {
          assert |full[done..]| == 0 && full[..done] == full;
          return;
        }
        assert w == WWires(full[done..])[0];
        NextInput(e0, full, done);
        InputSegment(w, full[done]);
        RestWires(full, done, w, Parse(conv, rest[size..]).segments);
        rest := rest[size..];
        done := done + 1;
      }
      assert |full[done..]| == 0 && full[..done] == full;
      code := 0;
    }

    // ---------- the user's side ----------

    /** The fragmentation loop of `ikcp_send`. */
    method QueueFragments(data: seq<Byte>, count: nat)
      modifies this`sndQueue
      ensures sndQueue == old(sndQueue) + Fragments(data, mss, count, stream)
    {
      var rest, i := data, 0;
      ghost var all := sndQueue + Fragments(data, mss, count, stream);
      while i < count
        invariant i <= count && sndQueue + Fragments(rest, mss, count - i, stream) == all
      {
        var size := if |rest| > mss then mss else |rest|;
        ghost var more := Fragments(rest[size..], mss, count - i - 1, stream);
        var seg := Seg(0, if stream then 0 else count - i - 1, rest[..size]);
        assert sndQueue + ([seg] + more) == sndQueue + [seg] + more;
        sndQueue := sndQueue + [seg];
        rest := rest[size..];
        i := i + 1;
      }
      assert sndQueue + [] == sndQueue;
    }

    /** `ikcp_send` */
    method Send(data: seq<Byte>) returns (code: int)
      requires Valid()
      modifies this`sndQueue, this`e
      ensures Valid() && SendResult(e, code) == SendData(old(e), data)
    {
      hide Ascending, Windowed, Fitting, Fragments;
      SendFitting(e, data);
      var rest, sent := data, 0;
      if stream {
        if sndQueue != [] && |sndQueue[|sndQueue| - 1].data| < mss {
          var room := mss - |sndQueue[|sndQueue| - 1].data|;
          sent := if |data| < room then |data| else room;
          sndQueue := Extended(sndQueue, data[..sent]);
          rest := data[sent..];
        }
        assert rest == data[sent..];
        if rest == [] {
          e := e.(sndQueue := sndQueue);
          return sent;
        }
      }
      assert sent == Taken(e, |data|) && rest == data[sent..] && sndQueue == Refilled(e, data);
      hide Taken, Refilled;
      var count := Count(|rest|, mss);
      if count >= WND_RCV {
        e := e.(sndQueue := sndQueue);
        return if stream && sent > 0 then sent else -2;
      }
      QueueFragments(rest, count);
      e := e.(sndQueue := sndQueue);
      code := |data|;
    }

    /** The length of the message at the head of the queue. */
    method MessageLength() returns (size: nat)
      ensures size == |Data(rcvQueue[..MessageEnd(rcvQueue)])|
    {
      size := 0;
      assert rcvQueue[0..] == rcvQueue;
      var i := 0;
      while i < |rcvQueue|
        invariant i <= |rcvQueue|
        invariant size + |Data(rcvQueue[i..][..MessageEnd(rcvQueue[i..])])| == |Data(rcvQueue[..MessageEnd(rcvQueue)])|
      {
        MessageStep(rcvQueue, i);
        size := size + |rcvQueue[i].data|;
        if rcvQueue[i].frg == 0 { break; }
        i := i + 1;
      }
    }

    /** `ikcp_peeksize` */
    method PeekSize() returns (size: int)
      requires Valid()
      ensures size == KcpEndpoint.PeekSize(e.rcvQueue)
    {
      hide Windowed, Fitting, W, WSeg, Data, MessageEnd;
      SameRead(e.rcvQueue);
      if rcvQueue == [] { return -1; }
      if rcvQueue[0].frg == 0 { return |rcvQueue[0].data|; }
      if |rcvQueue| < rcvQueue[0].frg + 1 { return -1; }
      size := MessageLength();
    }

    /** The merge loop of `ikcp_recv`. */
    method MergeMessage(peek: bool) returns (data: seq<Byte>)
      modifies this`rcvQueue
      ensures var q := old(rcvQueue); data == Data(q[..MessageEnd(q)]) && rcvQueue == if peek then q else q[MessageEnd(q)..]
    {
      hide Data, MessageEnd;
      MessageNone();
      var q, i := rcvQueue, 0;
      data := [];
      assert q[0..] == q;
      while i < |q|
        invariant i <= |q| && data + Data(q[i..][..MessageEnd(q[i..])]) == Data(q[..MessageEnd(q)])
        invariant i + MessageEnd(q[i..]) == MessageEnd(q) && rcvQueue == if peek then q else q[i..]
      {
        MessageStep(q, i);
        data := data + q[i].data;
        if !peek { rcvQueue := rcvQueue[1..]; }
        if q[i].frg == 0 { break; }
        i := i + 1;
      }
    }

    /** The message leaves the queue, unless it is only looked at. */
    method TakeMessage(peek: bool) returns (data: seq<Byte>)
      requires Valid()
      modifies this`rcvQueue, this`e
      ensures Valid() && data == Data(old(e).rcvQueue[..MessageEnd(old(e).rcvQueue)])
      ensures e == if peek then old(e) else old(e).(rcvQueue := old(e).rcvQueue[MessageEnd(old(e).rcvQueue)..])
    {
      hide Windowed, Fitting, W, WSegs, MessageEnd, Data;
      SameRead(e.rcvQueue);
      ghost var n := MessageEnd(e.rcvQueue);
      WSegsSlice(e.rcvQueue, n, |e.rcvQueue|);
      FittingQueue(e, e.rcvQueue[n..]);
      data := MergeMessage(peek);
      if !peek { e := e.(rcvQueue := e.rcvQueue[n..]); }
    }

    /** `ikcp_recv` with room for len bytes. */
    method Recv(len: nat, peek: bool) returns (code: int, data: seq<Byte>)
      requires Valid()
      modifies this`rcvBuf, this`rcvQueue, this`rcvNxt, this`askTell, this`e
      ensures Valid()
      ensures var r := KcpEndpoint.Recv(old(e), len, peek); e == r.e && code == r.code && data == r.data
    {
      hide *;
      QueueParts();
      RecvCases(e, len, peek);
      if rcvQueue == [] { return -1, []; }
      var peeksize := PeekSize();
      if peeksize < 0 { return -2, []; }
      if peeksize > len { return -3, []; }
      var recover := |rcvQueue| >= rcvWnd;
      data := TakeMessage(peek);
      MoveReady();
      QueueParts();
      if |rcvQueue| < rcvWnd && recover {
        TellWindow();
      }
      code := peeksize;
    }

    lemma QueueParts()
      requires Valid()
      ensures |rcvQueue| == |e.rcvQueue| && rcvWnd == e.rcvWnd && (rcvQueue == [] <==> e.rcvQueue == [])
    {}

    /** The peer will be told that there is room again. */
    method TellWindow()
      requires Valid()
      modifies this`askTell, this`e
      ensures Valid() && e == old(e).(tell := true)
    {
      hide Windowed, Fitting, W;
      FittingWindow(e, 0);
      askTell := true;
      e := e.(tell := true);
    }

    // ---------- output ----------

    /** `ikcp_encode8u`, `16u`, `32u`: the low bytes of v, the lowest first. */
    method PutLe(ptr: nat, v: nat, count: nat) returns (p: nat)
      requires ptr + count <= buffer.Length
      modifies buffer
      ensures p == ptr + count && buffer[..p] == old(buffer[..ptr]) + Le(v, count)
    {
      var rest := v;
      p := ptr;
      ghost var all := buffer[..ptr] + Le(v, count);
      while p < ptr + count
        invariant ptr <= p <= ptr + count && buffer[..p] + Le(rest, ptr + count - p) == all
      {
        ghost var was := buffer[..p];
        buffer[p] := Byte256(rest);
        assert buffer[..p + 1] == was + [Byte256(rest)];
        rest := rest / 256;
        p := p + 1;
      }
      assert buffer[..p] + [] == buffer[..p];
    }

    /** `ikcp_encode_seg` */
    method PutHeader(ptr: nat, w: Wire) returns (p: nat)
      requires ptr + OVERHEAD <= buffer.Length
      modifies buffer
      ensures p == ptr + OVERHEAD && buffer[..p] == old(buffer[..ptr]) + Header(conv, w)
    {
      hide Le, Header;
      HeaderChain(buffer[..ptr], conv, w);
      p := PutLe(ptr, conv, 4);
      p := PutLe(p, Code(w.cmd), 1);
      p := PutLe(p, w.frg, 1);
      p := PutLe(p, w.wnd, 2);
      p := PutLe(p, w.ts, 4);
      p := PutLe(p, w.sn, 4);
      p := PutLe(p, w.una, 4);
      p := PutLe(p, |w.data|, 4);
    }

    /** The header and the data behind it. */
    method EncodeSeg(ptr: nat, w: Wire) returns (p: nat)
      requires ptr + Need(w) <= buffer.Length
      modifies buffer
      ensures p == ptr + Need(w) && buffer[..p] == old(buffer[..ptr]) + Encode(conv, w)
    {
      hide Header;
      ghost var was := buffer[..ptr];
      p := PutHeader(ptr, w);
      ghost var head := buffer[..p];
      forall i | 0 <= i < |w.data| {
        buffer[p + i] := w.data[i];
      }
      assert buffer[..p + |w.data|] == head + w.data;
      assert was + Header(conv, w) + w.data == was + (Header(conv, w) + w.data);
      p := p + |w.data|;
    }

    /** The buffer holds the segments of the batch, and what is out has been output. */
    ghost predicate Holding(ptr: nat, b: Batch, before: seq<seq<Byte>>)
      reads this`output, buffer
    {
      && ptr <= buffer.Length && buffer[..ptr] == Datagram(conv, b.buffer)
      && output == before + Datagrams(conv, b.out)
    }

    /** `ikcp_output` */
    method OutputBuffer(ptr: nat, ghost b: Batch, ghost before: seq<seq<Byte>>)
      requires Holding(ptr, b, before)
      modifies this`output
      ensures Holding(0, PutOut(b), before) && (old(Valid()) ==> Valid())
    {
      hide Datagram;
      DatagramLength(conv, b.buffer);
      if ptr == 0 { return; }
      output := output + [buffer[..ptr]];
      assert Datagrams(conv, b.out + [b.buffer]) == Datagrams(conv, b.out) + [Datagram(conv, b.buffer)];
    }

    /** One segment goes into the buffer, after the buffer has gone out if there is no room. */
    method Append(ptr: nat, w: Wire, ghost b: Batch, ghost before: seq<seq<Byte>>) returns (p: nat)
      requires Holding(ptr, b, before) && buffer.Length >= mtu && Need(w) <= buffer.Length
      modifies this`output, buffer
      ensures Holding(p, Add(b, w, mtu), before) && (old(Valid()) ==> Valid())
    {
      hide Datagram, PutOut, Encode;
      DatagramSize(conv, b.buffer);
      p := ptr;
      ghost var b1 := b;
      if p + Need(w) > mtu {
        OutputBuffer(p, b, before);
        p := 0;
        b1 := PutOut(b);
      }
      DatagramMore(conv, b1.buffer, w);
      p := EncodeSeg(p, w);
    }

    /** `ikcp_wnd_unused` */
    function WndUnused(): nat
      reads this
    {
      if |rcvQueue| < rcvWnd then rcvWnd - |rcvQueue| else 0
    }

    /** The acknowledgements of a flush. */
    method FlushAcks(ptr: nat, ghost b: Batch, ghost before: seq<seq<Byte>>) returns (p: nat, ghost b': Batch)
      requires Valid() && Holding(ptr, b, before)
      modifies this`output, buffer
      ensures b' == AddAll(b, WWires(AckWires(e.acks, Room(e), e.rcv)), mtu) && Valid() && Holding(p, b', before)
    {
      hide Windowed, Fitting, Holding, Add, W;
      p, b' := ptr, b;
      ghost var ws := WWires(AckWires(e.acks, Room(e), e.rcv));
      for i := 0 to |ackList|
        invariant b' == AddAll(b, ws[..i], mtu) && Holding(p, b', before)
      {
        var w := Wire(Ack, 0, WndUnused(), ackList[i].ts, ackList[i].sn, rcvNxt, []);
        assert w == ws[i] && ws[..i + 1] == ws[..i] + [w];
        AddAllMore(b, ws[..i], w, mtu);
        p := Append(p, w, b', before);
        b' := Add(b', w, mtu);
      }
      assert ws[..|ws|] == ws;
    }

    /** The window probes of a flush. */
    method FlushProbes(t: Timing, ptr: nat, ghost b: Batch, ghost before: seq<seq<Byte>>) returns (p: nat, ghost b': Batch)
      requires Valid() && Holding(ptr, b, before)
      modifies this`output, buffer
      ensures b' == AddAll(b, WWires(Probes(e, t)), mtu) && Valid() && Holding(p, b', before)
    {
      hide Windowed, Fitting, Holding, Add;
      p, b' := ptr, b;
      var last := if ackList == [] then Pending(0, 0) else ackList[|ackList| - 1];
      var ask := Wire(Wask, 0, WndUnused(), last.ts, last.sn, rcvNxt, []);
      var tell := Wire(Wins, 0, WndUnused(), last.ts, last.sn, rcvNxt, []);
      assert ask == WWire(ProbeWire(e, Wask)) && tell == WWire(ProbeWire(e, Wins));
      AddProbes(b, e, t, ask, tell, mtu);
      hide AddAll;
      if askSend || (rmtWnd == 0 && t.probe) {
        p := Append(p, ask, b', before);
        b' := Add(b', ask, mtu);
      }
      if askTell {
        p := Append(p, tell, b', before);
        b' := Add(b', tell, mtu);
      }
    }

    /** Moves queued segments to the send buffer and numbers them. */
    method MoveToBuffer(cwnd: nat)
      requires Valid() && cwnd < HALF
      modifies this`sndQueue, this`sndBuf, this`sndNxt, this`e
      ensures Valid() && e == AfterMove(old(e), cwnd)
    {
      hide Fitting, Windowed, W, Diff, WSegs, Moved, Numbered;
      MoveStart(e);
      MoveInWindow(e, cwnd);
      ghost var i := 0;
      while sndQueue != []
        invariant e == old(e) && i <= Moved(e, cwnd) && sndQueue == e.sndQueue[i..] && sndNxt == W(e.nxt + i)
        invariant sndBuf == WSegs(e.sndBuf + Numbered(e.sndQueue[..i], e.nxt))
        decreases |sndQueue|
      {
        MoveRange(e, cwnd, i);
        WrapSum(e.una, cwnd);
        DiffTrue(e.nxt + i, e.una + cwnd);
        if Diff(sndNxt, W(sndUna + cwnd)) >= 0 { break; }
        NumberedNext(e.sndBuf, e.sndQueue, e.nxt, i);
        sndBuf := sndBuf + [sndQueue[0].(sn := sndNxt)];
        sndQueue := sndQueue[1..];
        WrapSum(e.nxt + i, 1);
        sndNxt := W(sndNxt + 1);
        i := i + 1;
      }
      MoveRange(e, cwnd, i);
      e := AfterMove(e, cwnd);
    }

    /** One data segment of a flush, if it is due. */
    method FlushPush(t: Timing, i: nat, ptr: nat, ghost b0: Batch, ghost b: Batch, ghost before: seq<seq<Byte>>)
      returns (p: nat, ghost b': Batch)
      requires Valid() && Holding(ptr, b, before) && i < |sndBuf|
      requires b == AddAll(b0, WWires(Pushes(e.sndBuf, t.due, Room(e), e.rcv, t.now, i)), mtu)
      modifies this`output, buffer
      ensures Valid() && Holding(p, b', before)
      ensures b' == AddAll(b0, WWires(Pushes(e.sndBuf, t.due, Room(e), e.rcv, t.now, i + 1)), mtu)
    {
      hide *;
      PushWireOk(t.now, i);
      p, b' := ptr, b;
      PushNext(b0, e.sndBuf, t, Room(e), e.rcv, i, mtu);
      if Selected(t.due, i) {
        var w := PushWire(t.now, i);
        p := Append(p, w, b', before);
        b' := Add(b', w, mtu);
      }
    }

    /** Segment i of the send buffer as it is sent. */
    function PushWire(now: nat, i: nat): Wire
      requires i < |sndBuf|
      reads this
    {
      Wire(Push, sndBuf[i].frg, WndUnused(), now, sndBuf[i].sn, rcvNxt, sndBuf[i].data)
    }

    lemma PushWireOk(now: nat, i: nat)
      requires Valid() && i < |sndBuf|
      ensures |sndBuf| == |e.sndBuf| && mtu <= buffer.Length && Need(PushWire(now, i)) <= buffer.Length
      ensures PushWire(now, i) == Wire(Push, e.sndBuf[i].frg, Room(e), now, W(e.sndBuf[i].sn), W(e.rcv), e.sndBuf[i].data)
    {
      assert sndBuf[i] == WSeg(e.sndBuf[i]);
      hide Windowed, W;
    }

    lemma SameLength()
      requires Valid()
      ensures |sndBuf| == |e.sndBuf|
    {}

    /** The data segments of a flush. */
    method FlushPushes(t: Timing, ptr: nat, ghost b: Batch, ghost before: seq<seq<Byte>>) returns (p: nat, ghost b': Batch)
      requires Valid() && Holding(ptr, b, before)
      modifies this`output, buffer
      ensures Valid() && Holding(p, b', before)
      ensures b' == AddAll(b, WWires(Pushes(e.sndBuf, t.due, Room(e), e.rcv, t.now, |e.sndBuf|)), mtu)
    {
      hide *;
      SameLength();
      PushNone(b, e.sndBuf, t, Room(e), e.rcv, mtu);
      p, b' := ptr, b;
      for i := 0 to |sndBuf|
        invariant Valid() && Holding(p, b', before)
        invariant b' == AddAll(b, WWires(Pushes(e.sndBuf, t.due, Room(e), e.rcv, t.now, i)), mtu)
      {
        p, b' := FlushPush(t, i, p, b, b', before);
      }
    }

    /** The three parts of a flush. */
    method FlushSegments(t: Timing, ghost before: seq<seq<Byte>>) returns (p: nat, ghost b: Batch)
      requires Valid() && t.cwnd < HALF && output == before
      modifies this`output, buffer, this`sndQueue, this`sndBuf, this`sndNxt, this`e
      ensures Valid() && e == AfterMove(old(e), t.cwnd) && Holding(p, b, before)
      ensures b == FlushBatch(old(e), t, mtu)
    {
      hide Valid, W, Diff, Add, Batched, AddAll, AfterMove, Holding, Pushes, Probes;
      p, b := 0, Batch([], []);
      StartHolding(before);
      p, b := FlushAcks(p, b, before);
      p, b := FlushProbes(t, p, b, before);
      MoveToBuffer(t.cwnd);
      p, b := FlushPushes(t, p, b, before);
    }

    /** The probe flags and the acknowledgements are done with. */
    method ClearPending()
      requires Valid()
      modifies this`ackList, this`askSend, this`askTell, this`e
      ensures Valid() && e == old(e).(acks := [], ask := false, tell := false)
    {
      hide W, Windowed, Fitting;
      FittingCleared(e);
      ackList, askSend, askTell := [], false, false;
      e := e.(acks := [], ask := false, tell := false);
    }

    /** `ikcp_flush` */
    method Flush(t: Timing)
      requires Valid() && TimingOk(e, t) && t.cwnd < HALF
      modifies this`output, buffer, this`sndQueue, this`sndBuf, this`sndNxt, this`ackList, this`askSend, this`askTell, this`e
      ensures Valid() && e == AfterFlush(old(e), t)
      ensures output == old(output) + Datagrams(conv, Batched(WWires(Flushed(old(e), t)), mtu))
    {
      hide Valid, PutOut, AfterMove, AfterFlush, Holding, FlushBatch, Batched, Datagrams;
      ghost var before := output;
      FlushParts(e, t, mtu);
      FlushState(e, t);
      var p; ghost var b;
      p, b := FlushSegments(t, before);
      OutputBuffer(p, b, before);
      EndHolding(PutOut(b), before);
      ClearPending();
    }

    lemma StartHolding(before: seq<seq<Byte>>)
      requires output == before
      ensures Holding(0, Batch([], []), before)
    {
      assert before + [] == before;
    }

    lemma EndHolding(b: Batch, before: seq<seq<Byte>>)
      requires Holding(0, b, before)
      ensures output == before + Datagrams(conv, b.out)
    {}
  }

  lemma FittingCleared(e: Endpoint)
    requires Windowed(e) && Fitting(e)
    ensures Windowed(e.(acks := [], ask := false, tell := false)) && Fitting(e.(acks := [], ask := false, tell := false))
  {}

  /** The parts of a flush, batched one after the other. */
  ghost function FlushBatch(e: Endpoint, t: Timing, mtu: nat): Batch {
    var m := AfterMove(e, t.cwnd);
    var b1 := AddAll(Batch([], []), WWires(AckWires(e.acks, Room(e), e.rcv)), mtu);
    var b2 := AddAll(b1, WWires(Probes(e, t)), mtu);
    AddAll(b2, WWires(Pushes(m.sndBuf, t.due, Room(m), m.rcv, t.now, |m.sndBuf|)), mtu)
  }

  lemma FlushState(e: Endpoint, t: Timing)
    ensures AfterFlush(e, t) == AfterMove(e, t.cwnd).(acks := [], ask := false, tell := false)
  {
    hide Moved, Assigned;
  }

  lemma FlushParts(e: Endpoint, t: Timing, mtu: nat)
    ensures PutOut(FlushBatch(e, t, mtu)).out == Batched(WWires(Flushed(e, t)), mtu)
  {
    hide Moved, Assigned, AckWires, Probes, Pushes, AddAll, PutOut, Batched, WWires, Room;
    var m := AfterMove(e, t.cwnd);
    assert m.rcvQueue == e.rcvQueue && m.rcv == e.rcv && m.sndBuf == AfterFlush(e, t).sndBuf;
    RoomSame(e, m);
    BatchParts(AckWires(e.acks, Room(e), e.rcv), Probes(e, t), Pushes(m.sndBuf, t.due, Room(m), m.rcv, t.now, |m.sndBuf|), mtu);
  }

  lemma RoomSame(e: Endpoint, m: Endpoint)
    requires m.rcvQueue == e.rcvQueue && m.rcvWnd == e.rcvWnd
    ensures Room(m) == Room(e)
  {}

  lemma BatchParts(u: seq<Wire>, v: seq<Wire>, w: seq<Wire>, mtu: nat)
    ensures Batched(WWires(u + v + w), mtu)
            == PutOut(AddAll(AddAll(AddAll(Batch([], []), WWires(u), mtu), WWires(v), mtu), WWires(w), mtu)).out
  {
    hide AddAll, PutOut, WWire;
    var a, b, c := WWires(u), WWires(v), WWires(w);
    assert WWires(u + v + w) == a + b + c;
    hide WWires;
    AddAllJoin(Batch([], []), a + b, c, mtu);
    AddAllJoin(Batch([], []), a, b, mtu);
  }

  /** Every segment of a flush fits its header and a datagram. */
  lemma FlushedFits(e: Endpoint, t: Timing, w: Wire)
    requires Windowed(e) && Fitting(e) && e.rcvWnd < 0x1_0000 && t.now < M && e.mss < HALF && w in Flushed(e, t)
    ensures WellFormed(WWire(w)) && |w.data| <= e.mss
  {
    FlushFitting(e, t);
    var buf := AfterFlush(e, t).sndBuf;
    assert Small(buf, e.mss);
    hide AfterFlush, Windowed, Small;
    if w in Pushes(buf, t.due, Room(e), e.rcv, t.now, |buf|) {
      PushFits(e, buf, t, |buf|, w);
    } else if w in AckWires(e.acks, Room(e), e.rcv) {
      var i :| 0 <= i < |e.acks| && AckWires(e.acks, Room(e), e.rcv)[i] == w;
      assert e.acks[i].ts < M;
    }
  }

  lemma {:induction false} PushFits(e: Endpoint, buf: seq<Seg>, t: Timing, i: nat, w: Wire)
    requires Small(buf, e.mss) && i <= |buf| && w in Pushes(buf, t.due, Room(e), e.rcv, t.now, i)
    ensures w.ts == t.now && w.wnd == Room(e) && |w.data| <= e.mss && w.frg < WND_RCV
  {
    if w in Pushes(buf, t.due, Room(e), e.rcv, t.now, i - 1) {
      PushFits(e, buf, t, i - 1, w);
    }
  }

  /** Every datagram that a flush outputs is at most mtu bytes long, and the input loop decodes exactly
      its segments; together they are the segments of the flush, in order. */
  lemma FlushDatagrams(conv: nat, e: Endpoint, t: Timing, mtu: nat)
    requires Windowed(e) && Fitting(e) && e.mss == mtu - OVERHEAD && mtu < HALF
    requires conv < M && e.rcvWnd < 0x1_0000 && t.now < M
    ensures var out := Batched(WWires(Flushed(e, t)), mtu);
            && Flatten(out) == WWires(Flushed(e, t))
            && forall i :: 0 <= i < |out| ==>
                 OVERHEAD <= |Datagram(conv, out[i])| <= mtu && Parse(conv, Datagram(conv, out[i])) == Parsed(out[i], 0)
  {
    var ws := Flushed(e, t);
    forall i | 0 <= i < |ws|
      ensures WellFormed(WWires(ws)[i]) && Need(WWires(ws)[i]) <= mtu
    {
      FlushedFits(e, t, ws[i]);
    }
    hide *;
    BatchedRoundTrip(conv, WWires(ws), mtu);
  }

  /** The part of a flush that numbers segments. */
  ghost function AfterMove(e: Endpoint, cwnd: nat): Endpoint {
    e.(nxt := e.nxt + Moved(e, cwnd), sndBuf := e.sndBuf + Assigned(e, cwnd), sndQueue := e.sndQueue[Moved(e, cwnd)..])
  }

  lemma MoveInWindow(e: Endpoint, cwnd: nat)
    requires Windowed(e) && Fitting(e) && cwnd < HALF
    ensures Windowed(AfterMove(e, cwnd)) && Fitting(AfterMove(e, cwnd))
  {
    var t := Timing(cwnd, [], false, 0);
    FlushWindowed(e, t);
    FlushFitting(e, t);
    var f := AfterFlush(e, t);
    assert AfterMove(e, cwnd) == f.(acks := e.acks, ask := e.ask, tell := e.tell);
  }

  /** How far the numbering goes. */
  lemma MoveRange(e: Endpoint, cwnd: nat, i: nat)
    requires Windowed(e) && cwnd < HALF && i <= Moved(e, cwnd)
    ensures -HALF <= e.nxt + i - (e.una + cwnd) < HALF
    ensures i < |e.sndQueue| && e.nxt + i < e.una + cwnd <==> i < Moved(e, cwnd)
  {}

  lemma MoveStart(e: Endpoint)
    ensures e.sndQueue[0..] == e.sndQueue && e.sndBuf + Numbered(e.sndQueue[..0], e.nxt) == e.sndBuf
  {}

  lemma NumberedNext(buf: seq<Seg>, queue: seq<Seg>, first: nat, i: nat)
    requires i < |queue|
    ensures buf + Numbered(queue[..i + 1], first) == buf + Numbered(queue[..i], first) + [queue[i].(sn := first + i)]
    ensures WSegs(buf + Numbered(queue[..i + 1], first)) == WSegs(buf + Numbered(queue[..i], first)) + [WSeg(queue[i].(sn := first + i))]
    ensures queue[i..][1..] == queue[i + 1..]
  {
    assert Numbered(queue[..i + 1], first) == Numbered(queue[..i], first) + [queue[i].(sn := first + i)];
    hide Numbered, W;
    WSegsJoin(buf + Numbered(queue[..i], first), [queue[i].(sn := first + i)]);
  }

  lemma AddProbes(b: Batch, e: Endpoint, t: Timing, ask: Wire, tell: Wire, mtu: nat)
    requires ask == WWire(ProbeWire(e, Wask)) && tell == WWire(ProbeWire(e, Wins))
    ensures var b1 := if Asks(e, t) then Add(b, ask, mtu) else b;
            AddAll(b, WWires(Probes(e, t)), mtu) == if e.tell then Add(b1, tell, mtu) else b1
  {
    hide Add, WWire, ProbeWire;
    var none: seq<Wire> := [];
    var first, second := if Asks(e, t) then [ask] else none, if e.tell then [tell] else none;
    assert WWires(Probes(e, t)) == first + second;
    AddAllJoin(b, first, second, mtu);
    AddAllOne(b, ask, mtu);
    AddAllOne(AddAll(b, first, mtu), tell, mtu);
  }

  lemma AddAllOne(b: Batch, w: Wire, mtu: nat)
    ensures AddAll(b, [w], mtu) == Add(b, w, mtu) && AddAll(b, [], mtu) == b
  {
    AddAllMore(b, [], w, mtu);
    assert [] + [w] == [w];
  }

  lemma PushNone(b: Batch, buf: seq<Seg>, t: Timing, wnd: nat, una: nat, mtu: nat)
    ensures AddAll(b, WWires(Pushes(buf, t.due, wnd, una, t.now, 0)), mtu) == b
  {}

  lemma PushNext(b: Batch, buf: seq<Seg>, t: Timing, wnd: nat, una: nat, i: nat, mtu: nat)
    requires i < |buf|
    ensures var w := Wire(Push, buf[i].frg, wnd, t.now, W(buf[i].sn), W(una), buf[i].data);
            var b1 := AddAll(b, WWires(Pushes(buf, t.due, wnd, una, t.now, i)), mtu);
            AddAll(b, WWires(Pushes(buf, t.due, wnd, una, t.now, i + 1)), mtu) == if Selected(t.due, i) then Add(b1, w, mtu) else b1
  {
    hide Add, W;
    var ws := Pushes(buf, t.due, wnd, una, t.now, i);
    var w := Wire(Push, buf[i].frg, wnd, t.now, buf[i].sn, una, buf[i].data);
    assert WWires(ws + [w]) == WWires(ws) + [WWire(w)];
    assert ws + [] == ws;
    AddAllMore(b, WWires(ws), WWire(w), mtu);
  }

  lemma HeaderChain(was: seq<Byte>, conv: nat, w: Wire)
    ensures was + Le(conv, 4) + Le(Code(w.cmd), 1) + Le(w.frg, 1) + Le(w.wnd, 2)
            + Le(w.ts, 4) + Le(w.sn, 4) + Le(w.una, 4) + Le(|w.data|, 4) == was + Header(conv, w)
  {
    hide Le;
  }

  lemma DatagramLength(conv: nat, ws: seq<Wire>)
    ensures Datagram(conv, ws) == [] <==> ws == []
    ensures Datagram(conv, []) == []
  {}

  /** The outcomes of `ikcp_recv`. */
  lemma RecvCases(e: Endpoint, len: nat, peek: bool)
    ensures var r, size, n := KcpEndpoint.Recv(e, len, peek), KcpEndpoint.PeekSize(e.rcvQueue), MessageEnd(e.rcvQueue);
            var m := KcpEndpoint.MoveReady(if peek then e else e.(rcvQueue := e.rcvQueue[n..]));
            if e.rcvQueue == [] then r.e == e && r.code == -1 && r.data == []
            else if size < 0 then r.e == e && r.code == -2 && r.data == []
            else if size > len then r.e == e && r.code == -3 && r.data == []
            else r.code == size && r.data == Data(e.rcvQueue[..n]) && m.rcvWnd == e.rcvWnd
                 && r.e == if |e.rcvQueue| >= e.rcvWnd && |m.rcvQueue| < m.rcvWnd then m.(tell := true) else m
  {
    hide KcpEndpoint.PeekSize, Ready, MessageEnd, Data;
  }

  lemma MessageNone()
    ensures MessageEnd([]) == 0 && Data([]) == []
  {}

  /** One segment of the message at position i. */
  lemma MessageStep(q: seq<Seg>, i: nat)
    requires i < |q|
    ensures var rest := q[i..];
            MessageEnd(rest) == (if q[i].frg == 0 then 1 else 1 + MessageEnd(q[i + 1..]))
            && Data(rest[..MessageEnd(rest)]) == q[i].data + if q[i].frg == 0 then [] else Data(q[i + 1..][..MessageEnd(q[i + 1..])])
  {
    var rest, n := q[i..], MessageEnd(q[i..]);
    assert rest[1..] == q[i + 1..];
    assert rest[..n][1..] == rest[1..][..n - 1];
  }

  /** Reading does not look at sequence numbers. */
  lemma {:induction false} SameRead(q: seq<Seg>)
    ensures MessageEnd(WSegs(q)) == MessageEnd(q) && KcpEndpoint.PeekSize(WSegs(q)) == KcpEndpoint.PeekSize(q)
    ensures Data(WSegs(q)[..MessageEnd(q)]) == Data(q[..MessageEnd(q)])
  {
    SameEnd(q);
    DataSame(q[..MessageEnd(q)], WSegs(q)[..MessageEnd(q)]);
    hide Data, MessageEnd, W;
  }

  lemma {:induction false} SameEnd(q: seq<Seg>)
    ensures MessageEnd(WSegs(q)) == MessageEnd(q)
  {
    if q != [] {
      SameEnd(q[1..]);
      assert WSegs(q)[1..] == WSegs(q[1..]);
    }
  }

  lemma FittingWindow(e: Endpoint, wnd: nat)
    requires Windowed(e) && Fitting(e)
    ensures Windowed(e.(rmtWnd := wnd)) && Fitting(e.(rmtWnd := wnd))
    ensures Windowed(e.(tell := true)) && Fitting(e.(tell := true))
  {}

  lemma FittingQueue(e: Endpoint, queue: seq<Seg>)
    requires Windowed(e) && Fitting(e)
    ensures Windowed(e.(rcvQueue := queue)) && Fitting(e.(rcvQueue := queue))
  {}

  lemma NearWindow(e: Endpoint, wnd: nat, sn: nat)
    ensures NearSender(e.(rmtWnd := wnd), sn) <==> NearSender(e, sn)
  {}

  /** What `Near` says about the state in which the command is carried out. */
  lemma NearAfter(e: Endpoint, w: Wire)
    requires Near(e, w)
    ensures var s := KcpEndpoint.ParseUna(e.(rmtWnd := w.wnd), w.una);
            NearSender(e, w.una) && (w.cmd == Ack ==> NearSender(Shrink(s), w.sn))
            && (w.cmd == Push ==> NearReceiver(Shrink(s), w.sn)) && w.ts < M
  {}

  lemma ParseShort(conv: nat)
    ensures forall b :: |b| < OVERHEAD ==> Parse(conv, b) == Parsed([], 0)
  {}

  lemma NoInput(e: Endpoint, ws: seq<Wire>)
    ensures InputAll(e, ws[..0]) == e && (|ws| == 0 ==> InputAll(e, ws) == e)
  {}

  lemma RestWires(ws: seq<Wire>, i: nat, w: Wire, rest: seq<Wire>)
    requires i < |ws| && WWires(ws[i..]) == [w] + rest
    ensures WWires(ws[i + 1..]) == rest
  {
    assert rest == ([w] + rest)[1..];
  }

  /** The next segment of a datagram. */
  lemma NextInput(e: Endpoint, ws: seq<Wire>, i: nat)
    requires i < |ws| && AllNear(e, ws)
    ensures Near(InputAll(e, ws[..i]), ws[i])
    ensures InputAll(e, ws[..i + 1]) == KcpEndpoint.Input(InputAll(e, ws[..i]), ws[i])
  {
    AllNearAt(e, ws, i);
    assert ws[..i + 1][..i] == ws[..i];
  }

  lemma {:induction false} AllNearAt(e: Endpoint, ws: seq<Wire>, i: nat)
    requires i < |ws| && AllNear(e, ws)
    ensures Near(InputAll(e, ws[..i]), ws[i])
  {
    if i < |ws| - 1 {
      AllNearAt(e, ws[..|ws| - 1], i);
      assert ws[..|ws| - 1][..i] == ws[..i];
    }
  }

  /** One segment moved from the buffer to the queue. */
  ghost function MovedOne(e: Endpoint): Endpoint
    requires e.rcvBuf != []
  {
    e.(rcvBuf := e.rcvBuf[1..], rcvQueue := e.rcvQueue + [e.rcvBuf[0]], rcv := e.rcv + 1)
  }

  lemma MoveOneReady(e: Endpoint)
    requires e.rcvBuf != [] && Windowed(e)
    ensures if e.rcvBuf[0].sn == e.rcv && |e.rcvQueue| < e.rcvWnd
            then KcpEndpoint.MoveReady(MovedOne(e)) == KcpEndpoint.MoveReady(e) && Windowed(MovedOne(e))
            else KcpEndpoint.MoveReady(e) == e
  {
    if e.rcvBuf[0].sn == e.rcv && |e.rcvQueue| < e.rcvWnd {
      MovedOneWindowed(e);
      hide Windowed;
      OneMoreReady(e);
    } else {
      hide Windowed;
      NoneReady(e);
    }
  }

  lemma OneMoreReady(e: Endpoint)
    requires e.rcvBuf != [] && e.rcvBuf[0].sn == e.rcv && |e.rcvQueue| < e.rcvWnd
    ensures KcpEndpoint.MoveReady(MovedOne(e)) == KcpEndpoint.MoveReady(e)
  {
    var one, r := MovedOne(e), Ready(e.rcvBuf[1..], e.rcv + 1, Room(e) - 1);
    assert Ready(e.rcvBuf, e.rcv, Room(e)) == r + 1 && Ready(one.rcvBuf, one.rcv, Room(one)) == r;
    hide Ready, Room;
    OneThenRest(e.rcvQueue, e.rcvBuf, r);
  }

  lemma NoneReady(e: Endpoint)
    requires e.rcvBuf == [] || e.rcvBuf[0].sn != e.rcv || |e.rcvQueue| >= e.rcvWnd
    ensures KcpEndpoint.MoveReady(e) == e
  {
    assert e.rcvBuf[0..] == e.rcvBuf && e.rcvQueue + e.rcvBuf[..0] == e.rcvQueue;
  }

  lemma OneThenRest<T>(queue: seq<T>, buf: seq<T>, r: nat)
    requires r < |buf|
    ensures buf[1..][r..] == buf[r + 1..]
    ensures queue + [buf[0]] + buf[1..][..r] == queue + buf[..r + 1]
  {}

  lemma MovedOneWindowed(e: Endpoint)
    requires e.rcvBuf != [] && Windowed(e) && e.rcvBuf[0].sn == e.rcv
    ensures Windowed(MovedOne(e))
  {
    var r := MovedOne(e);
    assert forall i :: 0 <= i < |r.rcvBuf| ==> r.rcvBuf[i] == e.rcvBuf[i + 1];
  }

  /** One turn of the search for the place of a segment. */
  lemma InsertStep(buf: seq<Seg>, seg: Seg, i: nat)
    requires 0 < i <= |buf| && Insert(buf, seg) == Insert(buf[..i], seg) + buf[i..]
    ensures buf[i - 1].sn == seg.sn ==> Insert(buf, seg) == buf
    ensures seg.sn > buf[i - 1].sn ==> Insert(buf, seg) == buf[..i] + [seg] + buf[i..]
    ensures seg.sn < buf[i - 1].sn ==> Insert(buf, seg) == Insert(buf[..i - 1], seg) + buf[i - 1..]
  {
    assert buf[..i][..i - 1] == buf[..i - 1] && buf[..i] + buf[i..] == buf;
    assert [buf[i - 1]] + buf[i..] == buf[i - 1..];
    hide Insert;
    assert Insert(buf[..i - 1], seg) + [buf[i - 1]] + buf[i..] == Insert(buf[..i - 1], seg) + ([buf[i - 1]] + buf[i..]);
  }

  lemma InsertHere(buf: seq<Seg>, seg: Seg, i: nat)
    requires i <= |buf| && (i == 0 || seg.sn > buf[i - 1].sn) && Insert(buf, seg) == Insert(buf[..i], seg) + buf[i..]
    ensures Insert(buf, seg) == buf[..i] + [seg] + buf[i..]
  {
    if i > 0 { InsertStep(buf, seg, i); }
  }

  /** One turn of the search for an acknowledged segment. */
  lemma WithoutStep(buf: seq<Seg>, sn: nat, i: nat)
    requires i < |buf| && Without(buf, sn) == buf[..i] + Without(buf[i..], sn)
    ensures sn < buf[i].sn ==> Without(buf, sn) == buf
    ensures sn == buf[i].sn ==> Without(buf, sn) == buf[..i] + buf[i + 1..]
    ensures sn > buf[i].sn ==> Without(buf, sn) == buf[..i + 1] + Without(buf[i + 1..], sn)
  {
    assert buf[i..][1..] == buf[i + 1..];
    assert buf[..i] + buf[i..] == buf;
    assert buf[..i] + [buf[i]] == buf[..i + 1];
  }

  lemma WithoutEnd(buf: seq<Seg>, sn: nat)
    ensures buf[..|buf|] + Without(buf[|buf|..], sn) == buf
  {}
}
