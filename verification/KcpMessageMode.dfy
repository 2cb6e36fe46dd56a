/** Message mode of KCP: every successful read returns one message, whole and in order. */
module KcpMessageMode {
  import opened Bytes
  import opened Sequences
  import opened KcpEndpoint
  import opened KcpNoLoss
  import opened KcpRuns
  import opened KcpMessages

  /** Segments without their numbers. */
  function Strip(segs: seq<Seg>): (r: seq<Seg>)
    ensures |r| == |segs| && forall i :: 0 <= i < |r| ==> r[i] == segs[i].(sn := 0)
  {
    seq(|segs|, i requires 0 <= i < |segs| => segs[i].(sn := 0))
  }

  function Whole(m: seq<Byte>, mss: nat): (f: seq<Seg>)
    requires mss > 0
    ensures |f| == Count(|m|, mss)
  {
    Fragments(m, mss, Count(|m|, mss), false)
  }

  /** The segments of some messages. */
  function Segmented(messages: seq<seq<Byte>>, mss: nat): seq<Seg>
    requires mss > 0
  {
    if messages == [] then [] else Segmented(messages[..|messages| - 1], mss) + Whole(messages[|messages| - 1], mss)
  }

  lemma SegmentedMore(messages: seq<seq<Byte>>, m: seq<Byte>, mss: nat)
    requires mss > 0
    ensures Segmented(messages + [m], mss) == Segmented(messages, mss) + Whole(m, mss)
  {
    assert (messages + [m])[..|messages|] == messages;
  }

  lemma {:induction false} SegmentedJoin(a: seq<seq<Byte>>, b: seq<seq<Byte>>, mss: nat)
    requires mss > 0
    ensures Segmented(a + b, mss) == Segmented(a, mss) + Segmented(b, mss)
  {
    hide *;
    if b == [] {
      NoneRight(a);
      SegmentedNone(mss);
    } else {
      var init, last := b[..|b| - 1], b[|b| - 1];
      LastSplit(b);
      SegmentedJoin(a, init, mss);
      SegmentedMore(a + init, last, mss);
      SegmentedMore(init, last, mss);
      Assoc(a, init, [last]);
      Assoc(Segmented(a, mss), Segmented(init, mss), Whole(last, mss));
    }
  }

  lemma SegmentedNone(mss: nat)
    requires mss > 0
    ensures Segmented([], mss) == []
  {}

  lemma StripJoin(a: seq<Seg>, b: seq<Seg>)
    ensures Strip(a + b) == Strip(a) + Strip(b)
  {}

  /** The shape of a fragmented message. */
  lemma WholeShape(m: seq<Byte>, mss: nat)
    requires mss > 0
    ensures Data(Whole(m, mss)) == m && Strip(Whole(m, mss)) == Whole(m, mss)
    ensures forall i :: 0 <= i < |Whole(m, mss)| ==> Whole(m, mss)[i].frg == |Whole(m, mss)| - 1 - i
  {
    var c := Count(|m|, mss);
    CountFits(|m|, mss);
    FragmentsData(m, mss, c, false);
    FragmentsUnnumbered(m, mss, c);
    forall i | 0 <= i < c
      ensures Whole(m, mss)[i].frg == c - 1 - i
    {
      FragmentNumbers(m, mss, c, i);
    }
  }

  lemma {:induction false} FragmentsUnnumbered(data: seq<Byte>, mss: nat, count: nat)
    ensures forall i :: 0 <= i < count ==> Fragments(data, mss, count, false)[i].sn == 0
    decreases count
  {
    if count > 0 {
      FragmentsUnnumbered(data[if |data| > mss then mss else |data|..], mss, count - 1);
    }
  }

  /** Where a message ends. */
  lemma {:induction false} EndAt(queue: seq<Seg>, n: nat)
    requires 0 < n <= |queue| && queue[n - 1].frg == 0 && forall i :: 0 <= i < n - 1 ==> queue[i].frg != 0
    ensures MessageEnd(queue) == n
  {
    if n > 1 { EndAt(queue[1..], n - 1); }
  }

  /** The first message in front of the others. */
  lemma SegmentedFirst(rest: seq<seq<Byte>>, mss: nat)
    requires mss > 0 && rest != []
    ensures Segmented(rest, mss) == Whole(rest[0], mss) + Segmented(rest[1..], mss)
  {
    hide *;
    assert rest == [rest[0]] + rest[1..];
    SegmentedJoin([rest[0]], rest[1..], mss);
    SegmentedMore([], rest[0], mss);
    SegmentedNone(mss);
    NoneRight([rest[0]]);
    NoneRight(Whole(rest[0], mss));
  }

  /** The queue starts with fragments of w. */
  ghost predicate StartsWith(queue: seq<Seg>, w: seq<Seg>) {
    forall i :: 0 <= i < |queue| && i < |w| ==> queue[i].(sn := 0) == w[i]
  }

  lemma PrefixStarts(queue: seq<Seg>, w: seq<Seg>, more: seq<Seg>)
    requires Strip(queue) <= w + more
    ensures StartsWith(queue, w)
  {
    forall i | 0 <= i < |queue| && i < |w|
      ensures queue[i].(sn := 0) == w[i]
    {
      assert Strip(queue)[i] == (w + more)[i];
    }
  }

  /** With all its segments there the message can be read. */
  lemma WholeThere(queue: seq<Seg>, m: seq<Byte>, mss: nat)
    requires mss > 0 && StartsWith(queue, Whole(m, mss)) && |queue| >= Count(|m|, mss)
    ensures var c := Count(|m|, mss);
            MessageEnd(queue) == c && Strip(queue[..c]) == Whole(m, mss) && Data(queue[..c]) == m
            && PeekSize(queue) == |m|
  {
    var c, w := Count(|m|, mss), Whole(m, mss);
    WholeShape(m, mss);
    assert forall i :: 0 <= i < c ==> queue[i].frg == w[i].frg && queue[i].data == w[i].data;
    EndAt(queue, c);
    assert Strip(queue[..c]) == w;
    DataSame(queue[..c], w);
    if c == 1 { OneData(queue); }
  }

  lemma PartThere(queue: seq<Seg>, m: seq<Byte>, mss: nat)
    requires mss > 0 && queue != [] && StartsWith(queue, Whole(m, mss)) && |queue| < Count(|m|, mss)
    ensures PeekSize(queue) < 0
  {
    WholeShape(m, mss);
    assert queue[0].frg == Whole(m, mss)[0].frg == Count(|m|, mss) - 1;
  }

  /** A queue that starts with the segments of a message: it can be read exactly when all of them are there. */
  lemma HeadMessage(queue: seq<Seg>, rest: seq<seq<Byte>>, mss: nat)
    requires mss > 0 && queue != [] && Strip(queue) <= Segmented(rest, mss)
    ensures rest != [] && (PeekSize(queue) >= 0 <==> |queue| >= Count(|rest[0]|, mss))
    ensures PeekSize(queue) >= 0 ==>
      var n := MessageEnd(queue);
      PeekSize(queue) == |rest[0]| && Data(queue[..n]) == rest[0] && Strip(queue[..n]) == Whole(rest[0], mss)
  {
    hide *;
    SegmentedNone(mss);
    SegmentedFirst(rest, mss);
    PrefixStarts(queue, Whole(rest[0], mss), Segmented(rest[1..], mss));
    if |queue| >= Count(|rest[0]|, mss) { WholeThere(queue, rest[0], mss); } else { PartThere(queue, rest[0], mss); }
  }

  // ---------- the invariant of one direction ----------

  /** Everything accepted is numbered or queued, message by message, and every message fits a window. */
  ghost predicate Sending(x: Side, mss: nat) {
    && mss > 0 && x.e.mss == mss && !x.e.stream
    && Strip(x.log + x.e.sndQueue) == Segmented(x.accepted, mss)
    && forall i :: 0 <= i < |x.accepted| ==> Count(|x.accepted[i]|, mss) < WND_RCV
  }

  /** Whole messages have been read, in order from the first. */
  ghost predicate Reading(x: Side, y: Side, mss: nat) {
    mss > 0 && y.got <= x.accepted && Strip(y.read) == Segmented(y.got, mss)
  }

  /** The receive queue starts with the message after the last one read. */
  lemma QueueHead(x: Side, y: Side, mss: nat)
    requires Sending(x, mss) && Reading(x, y, mss) && y.e.rcv <= |x.log| && y.read + y.e.rcvQueue == x.log[..y.e.rcv]
    ensures Strip(y.e.rcvQueue) <= Segmented(x.accepted[|y.got|..], mss)
  {
    var rest := x.log[y.e.rcv..] + x.e.sndQueue;
    assert x.accepted == y.got + x.accepted[|y.got|..];
    SegmentedJoin(y.got, x.accepted[|y.got|..], mss);
    assert x.log + x.e.sndQueue == y.read + (y.e.rcvQueue + rest);
    StripJoin(y.read, y.e.rcvQueue + rest);
    StripJoin(y.e.rcvQueue, rest);
    hide Strip, Segmented;
    assert Strip(y.e.rcvQueue + rest) == (Strip(y.read) + Strip(y.e.rcvQueue + rest))[|Strip(y.read)|..];
    assert Segmented(x.accepted[|y.got|..], mss) == (Segmented(y.got, mss) + Segmented(x.accepted[|y.got|..], mss))[|Segmented(y.got, mss)|..];
  }

  lemma ReadResult(e: Endpoint, len: nat, peek: bool)
    ensures var r := Recv(e, len, peek);
            && r.e.sndQueue == e.sndQueue && r.e.mss == e.mss && r.e.stream == e.stream
            && if e.rcvQueue == [] || PeekSize(e.rcvQueue) < 0 || PeekSize(e.rcvQueue) > len
               then r.code < 0 && r.read == []
               else r.code == PeekSize(e.rcvQueue) && r.data == Data(e.rcvQueue[..MessageEnd(e.rcvQueue)])
                    && r.read == if peek then [] else e.rcvQueue[..MessageEnd(e.rcvQueue)]
  {
    hide Ready, PeekSize, Data;
  }

  /** A read takes one whole message. */
  lemma ReadWhole(x: Side, y: Side, mss: nat, len: nat, peek: bool)
    requires Sending(x, mss) && Reading(x, y, mss) && y.e.rcv <= |x.log| && y.read + y.e.rcvQueue == x.log[..y.e.rcv]
    ensures Reading(x, Local(y, Read(len, peek)), mss)
  {
    var r := Recv(y.e, len, peek);
    ReadResult(y.e, len, peek);
    hide Recv, PeekSize, Data, Strip, Segmented;
    assert y.read + [] == y.read;
    if r.code >= 0 && !peek {
      var n, rest := MessageEnd(y.e.rcvQueue), x.accepted[|y.got|..];
      QueueHead(x, y, mss);
      HeadMessage(y.e.rcvQueue, rest, mss);
      StripJoin(y.read, y.e.rcvQueue[..n]);
      SegmentedMore(y.got, rest[0], mss);
      assert rest[0] == x.accepted[|y.got|];
    }
  }

  /** A send queues one whole message or nothing. */
  lemma SendWhole(x: Side, mss: nat, data: seq<Byte>)
    requires Sending(x, mss)
    ensures Sending(Local(x, Send(data)), mss) && x.accepted <= Local(x, Send(data)).accepted
  {
    var w := Whole(data, mss);
    var queue := x.e.sndQueue;
    assert data[0..] == data && data[..|data|] == data;
    SegmentedMore(x.accepted, data, mss);
    WholeShape(data, mss);
    StripJoin(x.log + queue, w);
    assert x.log + (queue + w) == x.log + queue + w;
    hide Strip, Segmented, Fragments;
  }

  /** Numbering moves segments from the queue to the log. */
  lemma FlushStrip(e: Endpoint, log: seq<Seg>, t: Timing)
    ensures Strip(LogAfter(e, log, t) + AfterFlush(e, t).sndQueue) == Strip(log + e.sndQueue)
  {
    var before, after := log + e.sndQueue, LogAfter(e, log, t) + AfterFlush(e, t).sndQueue;
    assert |before| == |after|;
    forall i | 0 <= i < |before|
      ensures before[i].(sn := 0) == after[i].(sn := 0)
    {
      if i >= |log| { assert before[i] == e.sndQueue[i - |log|]; }
    }
  }

  lemma FlushWhole(x: Side, mss: nat, t: Timing)
    requires Sending(x, mss)
    ensures Sending(Local(x, Flush(t)), mss)
  {
    FlushStrip(x.e, x.log, t);
    hide Strip, Segmented, LogAfter;
  }

  // ---------- runs ----------

  /** An event at x keeps both of its roles. */
  lemma SideWhole(x: Side, y: Side, mss: nat, mss': nat, ev: Event)
    requires Sending(x, mss) && Reading(x, y, mss) && Sending(y, mss') && Reading(y, x, mss')
    requires x.e.rcv <= |y.log| && x.read + x.e.rcvQueue == y.log[..x.e.rcv]
    ensures var x' := Local(x, ev);
            Sending(x', mss) && Reading(x', y, mss) && Reading(y, x', mss')
  {
    hide Strip, Segmented, Input, Recv, SendData, AfterFlush, LogAfter;
    match ev
    case Send(data) => { SendWhole(x, mss, data); }
    case Arrive(w) => { InputQueue(x.e, w); }
    case Flush(t) => { FlushWhole(x, mss, t); }
    case Read(len, peek) => {
      ReadWhole(y, x, mss', len, peek);
      ReadResult(x.e, len, peek);
    }
  }

  ghost predicate MessageMode(s: Sys, mssA: nat, mssB: nat) {
    Sending(s.a, mssA) && Reading(s.a, s.b, mssA) && Sending(s.b, mssB) && Reading(s.b, s.a, mssB)
  }

  lemma NextWhole(s: Sys, s': Sys, mssA: nat, mssB: nat)
    requires MessageMode(s, mssA, mssB) && SysOk(s) && Next(s, s')
    ensures MessageMode(s', mssA, mssB)
  {
    assert s.b.e.rcv <= |s.a.log| && s.b.read + s.b.e.rcvQueue == s.a.log[..s.b.e.rcv];
    assert s.a.e.rcv <= |s.b.log| && s.a.read + s.a.e.rcvQueue == s.b.log[..s.a.e.rcv];
    hide Sending, Reading, Local, SysOk;
    if ev :| Possible(s.a, s.toA, ev) && s' == StepA(s, ev) {
      SideWhole(s.a, s.b, mssA, mssB, ev);
    } else {
      var ev :| Possible(s.b, s.toB, ev) && Swap(s') == StepA(Swap(s), ev);
      SideWhole(s.b, s.a, mssB, mssA, ev);
    }
  }

  /** Both sides start in message mode. */
  ghost predicate MessageRun(states: seq<Sys>) {
    && Run(states) && states[0].a.e.mss > 0 && states[0].b.e.mss > 0
    && !states[0].a.e.stream && !states[0].b.e.stream
  }

  lemma {:induction false} RunWhole(states: seq<Sys>, i: nat)
    requires MessageRun(states) && i < |states|
    ensures MessageMode(states[i], states[0].a.e.mss, states[0].b.e.mss)
  {
    hide Next, SysOk;
    if i > 0 {
      RunWhole(states, i - 1);
      RunOk(states, i - 1);
      assert Next(states[i - 1], states[i - 1 + 1]);
      hide MessageMode;
      NextWhole(states[i - 1], states[i], states[0].a.e.mss, states[0].b.e.mss);
    }
  }

  /** In message mode, in either direction, what the reads have returned is exactly the first messages
      that were accepted, each of them whole. */
  lemma MessagesInOrder(states: seq<Sys>, i: nat)
    requires MessageRun(states) && i < |states|
    ensures states[i].b.got <= states[i].a.accepted && states[i].a.got <= states[i].b.accepted
  {
    RunWhole(states, i);
  }

  /** The peek size is the length of the next message, and a queue that fills a window has it whole. */
  ghost predicate PeekOk(x: Side, y: Side) {
    && (PeekSize(y.e.rcvQueue) >= 0 ==> |y.got| < |x.accepted| && PeekSize(y.e.rcvQueue) == |x.accepted[|y.got|]|)
    && (|y.e.rcvQueue| >= WND_RCV ==> PeekSize(y.e.rcvQueue) >= 0)
  }

  lemma PeekNext(x: Side, y: Side, mss: nat)
    requires Sending(x, mss) && Reading(x, y, mss) && y.e.rcv <= |x.log| && y.read + y.e.rcvQueue == x.log[..y.e.rcv]
    ensures PeekOk(x, y)
  {
    hide PeekSize, Strip, Segmented;
    var queue, rest := y.e.rcvQueue, x.accepted[|y.got|..];
    if queue != [] {
      QueueHead(x, y, mss);
      HeadMessage(queue, rest, mss);
    } else {
      EmptyPeek();
    }
  }

  /** In every state of every run, in either direction: what `ikcp_peeksize` reports is the length of the
      next message, and a full receive queue always has a whole message at its head. */
  lemma PeekIsNextMessage(states: seq<Sys>, i: nat)
    requires MessageRun(states) && i < |states|
    ensures PeekOk(states[i].a, states[i].b) && PeekOk(states[i].b, states[i].a)
  {
    RunWhole(states, i);
    NoSegmentLost(states, i);
    hide Run, NothingLost, PeekOk, Sending, Reading;
    PeekNext(states[i].a, states[i].b, states[0].a.e.mss);
    PeekNext(states[i].b, states[i].a, states[0].b.e.mss);
  }

  lemma EmptyPeek()
    ensures PeekSize([]) < 0
  {}
}
