/** What the users see: bytes in order in every mode, and whole messages in message mode. */
module KcpMessages {
  import opened Bytes
  import opened Sequences
  import opened KcpEndpoint
  import opened KcpNoLoss
  import opened KcpRuns

  function Concat(pieces: seq<seq<Byte>>): seq<Byte> {
    if pieces == [] then [] else Concat(pieces[..|pieces| - 1]) + pieces[|pieces| - 1]
  }

  lemma {:induction false} DataJoin(a: seq<Seg>, b: seq<Seg>)
    ensures Data(a + b) == Data(a) + Data(b)
  {
    if a == [] {
      NoneRight(b);
    } else {
      DataJoin(a[1..], b);
      FirstOff(a, b);
      Assoc(a[0].data, Data(a[1..]), Data(b));
    }
  }

  lemma {:induction false} DataSame(a: seq<Seg>, b: seq<Seg>)
    requires |a| == |b| && forall i :: 0 <= i < |a| ==> a[i].data == b[i].data
    ensures Data(a) == Data(b)
  {
    if a != [] { DataSame(a[1..], b[1..]); }
  }

  lemma ConcatMore(pieces: seq<seq<Byte>>, last: seq<Byte>)
    ensures Concat(pieces + [last]) == Concat(pieces) + last
  {
    assert (pieces + [last])[..|pieces|] == pieces;
  }

  // ---------- fragmentation ----------

  lemma {:induction false} FragmentsData(data: seq<Byte>, mss: nat, count: nat, stream: bool)
    requires |data| <= count * mss
    ensures Data(Fragments(data, mss, count, stream)) == data
    ensures forall i :: 0 <= i < count ==> |Fragments(data, mss, count, stream)[i].data| <= mss
    decreases count
  {
    if count > 0 {
      var size := if |data| > mss then mss else |data|;
      OneLess(count, mss, |data|);
      FragmentsData(data[size..], mss, count - 1, stream);
      SplitAt(data, size);
      FirstFragment(data, mss, count, stream);
      hide Fragments, Data;
    }
  }

  lemma OneLess(count: nat, mss: nat, len: nat)
    requires count > 0 && len <= count * mss
    ensures (if len > mss then len - mss else 0) <= (count - 1) * mss
  {
    assert count * mss == (count - 1) * mss + mss;
  }

  lemma FirstFragment(data: seq<Byte>, mss: nat, count: nat, stream: bool)
    requires count > 0
    ensures var size := if |data| > mss then mss else |data|;
            var f, rest := Fragments(data, mss, count, stream), Fragments(data[size..], mss, count - 1, stream);
            Data(f) == data[..size] + Data(rest) && |f[0].data| <= mss && forall i :: 0 < i < count ==> f[i] == rest[i - 1]
  {
    var size := if |data| > mss then mss else |data|;
    assert Fragments(data, mss, count, stream)[1..] == Fragments(data[size..], mss, count - 1, stream);
  }

  lemma {:induction false} FragmentNumbers(data: seq<Byte>, mss: nat, count: nat, i: nat)
    requires i < count
    ensures Fragments(data, mss, count, false)[i].frg == count - 1 - i
    decreases count
  {
    var size := if |data| > mss then mss else |data|;
    if i > 0 { FragmentNumbers(data[size..], mss, count - 1, i - 1); }
  }

  lemma CountFits(len: nat, mss: nat)
    requires mss > 0
    ensures len <= Count(len, mss) * mss
  {
    if len > mss {
      var t := len + mss - 1;
      assert t == t / mss * mss + t % mss;
    }
  }

  // ---------- bytes ----------

  /** What `ikcp_send` queues is what it says it took. */
  lemma SendBytes(e: Endpoint, data: seq<Byte>)
    requires e.mss > 0
    ensures var r := SendData(e, data);
            r.code <= |data| && Data(r.e.sndQueue) == Data(e.sndQueue) + if r.code >= 0 then data[..r.code] else []
  {
    RefilledData(e, data);
    AllFragments(e, data);
    assert data[..|data|] == data;
    hide Count, Fragments, Data, Taken, Refilled;
  }

  lemma AllFragments(e: Endpoint, data: seq<Byte>)
    requires e.mss > 0
    ensures var rest := data[Taken(e, |data|)..];
            Data(Refilled(e, data) + Fragments(rest, e.mss, Count(|rest|, e.mss), e.stream)) == Data(e.sndQueue) + data
  {
    var x, rest := Taken(e, |data|), data[Taken(e, |data|)..];
    RefilledData(e, data);
    CountFits(|rest|, e.mss);
    FragmentsData(rest, e.mss, Count(|rest|, e.mss), e.stream);
    DataJoin(Refilled(e, data), Fragments(rest, e.mss, Count(|rest|, e.mss), e.stream));
    hide Count, Fragments, Data, Taken, Refilled;
    assert data[..x] + rest == data;
    assert Data(e.sndQueue) + data[..x] + rest == Data(e.sndQueue) + (data[..x] + rest);
  }

  lemma RefilledData(e: Endpoint, data: seq<Byte>)
    ensures Data(Refilled(e, data)) == Data(e.sndQueue) + data[..Taken(e, |data|)]
    ensures Taken(e, |data|) == 0 ==> data[..Taken(e, |data|)] == []
    ensures !e.stream ==> Taken(e, |data|) == 0
  {
    if e.sndQueue != [] { ExtendedData(e.sndQueue, data[..Taken(e, |data|)]); }
    hide Data, Extended;
    assert Data(e.sndQueue) + [] == Data(e.sndQueue);
  }

  lemma ExtendedData(queue: seq<Seg>, more: seq<Byte>)
    requires queue != []
    ensures Data(Extended(queue, more)) == Data(queue) + more
  {
    var init, last := queue[..|queue| - 1], queue[|queue| - 1];
    assert queue == init + [last];
    DataJoin(init, [last]);
    DataJoin(init, [Seg(last.sn, 0, last.data + more)]);
  }

  /** Everything accepted is numbered or queued, and everything read has been handed out. */
  ghost predicate BytesOk(x: Side) {
    && Data(x.log + x.e.sndQueue) == Concat(x.accepted)
    && Data(x.read) == Concat(x.got)
  }

  lemma FlushBytes(e: Endpoint, log: seq<Seg>, t: Timing)
    ensures Data(LogAfter(e, log, t) + AfterFlush(e, t).sndQueue) == Data(log + e.sndQueue)
  {
    var m := Moved(e, t.cwnd);
    var more, rest := Assigned(e, t.cwnd), e.sndQueue[m..];
    DataSame(more, e.sndQueue[..m]);
    assert e.sndQueue == e.sndQueue[..m] + rest;
    DataJoin(log + more, rest);
    DataJoin(log, more);
    DataJoin(log, e.sndQueue);
    DataJoin(e.sndQueue[..m], rest);
  }

  lemma ReadBytes(e: Endpoint, len: nat, peek: bool)
    ensures var r := Recv(e, len, peek);
            && r.e.sndQueue == e.sndQueue && (r.code >= 0 ==> |r.data| == r.code)
            && Data(r.read) == if r.code >= 0 && !peek then r.data else []
  {
    hide Ready, Data;
    assert Data([]) == [] by { NoData(); }
    if e.rcvQueue != [] && e.rcvQueue[0].frg == 0 { OneData(e.rcvQueue); }
  }

  lemma NoData()
    ensures Data([]) == []
  {}

  lemma OneData(queue: seq<Seg>)
    requires queue != []
    ensures Data(queue[..1]) == queue[0].data
  {
    assert queue[..1] == [queue[0]];
  }

  lemma LocalBytes(x: Side, ev: Event)
    requires BytesOk(x) && (ev.Send? ==> x.e.mss > 0)
    ensures BytesOk(Local(x, ev))
  {
    hide Data, Concat, Input, Recv, SendData, AfterFlush, LogAfter;
    match ev
    case Send(data) => {
      var r := SendData(x.e, data);
      SendBytes(x.e, data);
      DataJoin(x.log, x.e.sndQueue);
      DataJoin(x.log, r.e.sndQueue);
      if r.code >= 0 { ConcatMore(x.accepted, data[..r.code]); }
      assert Data(x.log) + Data(x.e.sndQueue) + [] == Data(x.log) + Data(x.e.sndQueue);
    }
    case Arrive(w) => { InputQueue(x.e, w); }
    case Flush(t) => { FlushBytes(x.e, x.log, t); }
    case Read(len, peek) => {
      var r := Recv(x.e, len, peek);
      ReadBytes(x.e, len, peek);
      DataJoin(x.read, r.read);
      if r.code >= 0 && !peek { ConcatMore(x.got, r.data); }
      assert Data(x.read) + [] == Data(x.read);
    }
  }

  lemma InputQueue(e: Endpoint, w: Wire)
    ensures Input(e, w).sndQueue == e.sndQueue && Input(e, w).mss == e.mss && Input(e, w).stream == e.stream
  {
    hide DropBelow, Without, Ready, Insert;
  }

  ghost predicate AllBytesOk(s: Sys) { BytesOk(s.a) && BytesOk(s.b) }

  lemma {:induction false} RunBytes(states: seq<Sys>, i: nat)
    requires Run(states) && i < |states|
    ensures AllBytesOk(states[i])
  {
    hide BytesOk, StepA;
    if i == 0 {
      FreshBytes(states[0].a);
      FreshBytes(states[0].b);
    } else {
      RunBytes(states, i - 1);
      var s, s' := states[i - 1], states[i];
      assert Next(s, states[i - 1 + 1]);
      NextBytes(s, s');
    }
  }

  lemma FreshBytes(x: Side)
    requires FreshSide(x)
    ensures BytesOk(x)
  {}

  lemma NextBytes(s: Sys, s': Sys)
    requires AllBytesOk(s) && Next(s, s')
    ensures AllBytesOk(s')
  {
    hide BytesOk, Local;
    if ev :| Possible(s.a, s.toA, ev) && s' == StepA(s, ev) {
      LocalBytes(s.a, ev);
    } else {
      var ev :| Possible(s.b, s.toB, ev) && Swap(s') == StepA(Swap(s), ev);
      LocalBytes(s.b, ev);
    }
  }

  /** What the receiver has is a prefix of what the sender took. */
  lemma PrefixBytes(x: Side, y: Side)
    requires BytesOk(x) && BytesOk(y) && y.e.rcv <= |x.log| && y.read + y.e.rcvQueue == x.log[..y.e.rcv]
    ensures Concat(y.got) <= Concat(x.accepted)
  {
    var rest := x.log[y.e.rcv..];
    assert x.log == x.log[..y.e.rcv] + rest;
    assert x.log + x.e.sndQueue == y.read + (y.e.rcvQueue + (rest + x.e.sndQueue));
    DataJoin(y.read, y.e.rcvQueue + (rest + x.e.sndQueue));
  }

  /** In either direction, in stream or message mode, the bytes read are always a prefix of the bytes
      that were handed in. */
  lemma BytesInOrder(states: seq<Sys>, i: nat)
    requires Run(states) && i < |states|
    ensures Concat(states[i].b.got) <= Concat(states[i].a.accepted)
    ensures Concat(states[i].a.got) <= Concat(states[i].b.accepted)
  {
    RunBytes(states, i);
    NoSegmentLost(states, i);
    hide Run, BytesOk, NothingLost;
    PrefixBytes(states[i].a, states[i].b);
    PrefixBytes(states[i].b, states[i].a);
  }
}
