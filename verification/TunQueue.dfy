/** The bounded packet queue between TUN and air, src/v6_uplink_queue.hpp, and how the client and
    server loops of src/v6_uplink.cpp use it. */
module TunQueue {
  import opened Bytes
  import opened Sequences
  import opened WireFormat

  datatype Reason = NoPause | BytesThreshold | PacketsLimit

  datatype Counters = Counters(pauses: nat, resumes: nat, byBytes: nat, byPackets: nat)

  datatype Limits = Limits(pauseBytes: nat, resumeBytes: nat, packets: nat)

  datatype Queue = Queue(contents: seq<seq<Byte>>, latched: bool, paused: bool, reason: Reason, counters: Counters)

  const FRESH_QUEUE := Queue([], false, false, NoPause, Counters(0, 0, 0, 0))

  /** The queued bytes. */
  function Total(contents: seq<seq<Byte>>): nat {
    if contents == [] then 0 else |contents[0]| + Total(contents[1..])
  }

  lemma {:induction false} TotalMore(contents: seq<seq<Byte>>, p: seq<Byte>)
    ensures Total(contents + [p]) == Total(contents) + |p|
  {
    if contents != [] {
      TotalMore(contents[1..], p);
      assert (contents + [p])[1..] == contents[1..] + [p];
    }
  }

  function Full(q: Queue, l: Limits): bool { |q.contents| == l.packets }

  /** `refresh_bytes_pause_latch` */
  function Latch(latched: bool, bytes: nat, l: Limits): bool {
    if !latched && bytes >= l.pauseBytes then true
    else if latched && bytes <= l.resumeBytes then false
    else latched
  }

  function ReasonFor(full: bool, latched: bool): Reason {
    if full then PacketsLimit else if latched then BytesThreshold else NoPause
  }

  /** `update_pause_state` */
  function Update(q: Queue, l: Limits): Queue {
    var reason := ReasonFor(Full(q, l), q.latched);
    var c := q.counters;
    if !q.paused && reason != NoPause then
      q.(paused := true, reason := reason,
         counters := c.(pauses := c.pauses + 1, byBytes := if reason == BytesThreshold then c.byBytes + 1 else c.byBytes,
                        byPackets := if reason == PacketsLimit then c.byPackets + 1 else c.byPackets))
    else if q.paused && reason == NoPause then
      q.(paused := false, reason := NoPause, counters := c.(resumes := c.resumes + 1))
    else q.(reason := reason)
  }

  /** The pause state after the contents have changed. */
  function Changed(q: Queue, l: Limits, contents: seq<seq<Byte>>): Queue {
    Update(q.(contents := contents, latched := Latch(q.latched, Total(contents), l)), l)
  }

  predicate Fits(q: Queue, l: Limits, p: seq<Byte>) { |p| <= MAX_PAYLOAD_SIZE && !Full(q, l) }

  function Pushed(q: Queue, l: Limits, p: seq<Byte>): Queue {
    if Fits(q, l, p) then Changed(q, l, q.contents + [p]) else q
  }

  function Popped(q: Queue, l: Limits): Queue {
    if q.contents == [] then q else Changed(q, l, q.contents[1..])
  }

  // ---------- what every operation keeps ----------

  /** Reading is paused exactly when the queue is full or the byte latch is set, the reason says which,
      and pauses less resumes is whether it is paused now. */
  ghost predicate QueueOk(q: Queue, l: Limits) {
    && |q.contents| <= l.packets && 0 < l.packets
    && q.reason == ReasonFor(Full(q, l), q.latched)
    && (q.paused <==> Full(q, l) || q.latched)
    && q.counters.pauses == q.counters.resumes + (if q.paused then 1 else 0)
    && q.counters.pauses == q.counters.byBytes + q.counters.byPackets
  }

  lemma PushKeeps(q: Queue, l: Limits, p: seq<Byte>)
    requires QueueOk(q, l)
    ensures QueueOk(Pushed(q, l, p), l)
  {}

  lemma PopKeeps(q: Queue, l: Limits)
    requires QueueOk(q, l)
    ensures QueueOk(Popped(q, l), l)
  {}

  datatype Event = Enqueue(packet: seq<Byte>) | Dequeue

  function Run(l: Limits, evs: seq<Event>): Queue {
    if evs == [] then FRESH_QUEUE
    else
      var q := Run(l, evs[..|evs| - 1]);
      match evs[|evs| - 1] case Enqueue(p) => Pushed(q, l, p) case Dequeue => Popped(q, l)
  }

  lemma {:induction false} RunKeeps(l: Limits, evs: seq<Event>)
    requires l.packets > 0
    ensures QueueOk(Run(l, evs), l)
  {
    if evs != [] {
      var q := Run(l, evs[..|evs| - 1]);
      RunKeeps(l, evs[..|evs| - 1]);
      match evs[|evs| - 1] {
        case Enqueue(p) => PushKeeps(q, l, p);
        case Dequeue => PopKeeps(q, l);
      }
    }
  }

  /** With a pause threshold above zero an empty queue has no latch, so a paused queue holds packets and
      draining it resumes reading. */
  lemma {:induction false} PausedHoldsPackets(l: Limits, evs: seq<Event>)
    requires l.packets > 0 && l.pauseBytes > 0
    ensures Run(l, evs).paused ==> Run(l, evs).contents != []
  {
    RunKeeps(l, evs);
    EmptyUnlatched(l, evs);
  }

  lemma {:induction false} EmptyUnlatched(l: Limits, evs: seq<Event>)
    requires l.pauseBytes > 0
    ensures Run(l, evs).contents == [] ==> !Run(l, evs).latched
  {
    if evs != [] {
      EmptyUnlatched(l, evs[..|evs| - 1]);
      assert Total([]) == 0;
    }
  }

  // ---------- when the bytes set the latch ----------

  /** The bytes queued after the first i events. */
  function BytesAt(l: Limits, evs: seq<Event>, i: nat): nat
    requires i <= |evs|
  {
    Total(Run(l, evs[..i]).contents)
  }

  /** The latch was set at event i and has not been cleared since: the bytes reached the pause threshold
      there, and stayed above the resume threshold whenever they changed. */
  ghost predicate SetAt(l: Limits, evs: seq<Event>, i: nat) {
    && 1 <= i <= |evs| && BytesAt(l, evs, i) >= l.pauseBytes
    && (BytesAt(l, evs, i) > l.resumeBytes || BytesAt(l, evs, i) > BytesAt(l, evs, i - 1))
    && forall j :: i < j <= |evs| ==> Holds(l, evs, j)
  }

  /** Event j does not clear the latch. */
  ghost predicate Holds(l: Limits, evs: seq<Event>, j: nat)
    requires 1 <= j <= |evs|
  {
    BytesAt(l, evs, j) > l.resumeBytes || BytesAt(l, evs, j) == BytesAt(l, evs, j - 1)
  }

  /** Packets are not empty. */
  predicate NonEmpty(evs: seq<Event>) { forall i :: 0 <= i < |evs| && evs[i].Enqueue? ==> evs[i].packet != [] }

  function Step(q: Queue, l: Limits, ev: Event): Queue {
    match ev case Enqueue(p) => Pushed(q, l, p) case Dequeue => Popped(q, l)
  }

  /** One event either changes nothing or changes the bytes, and then the latch follows them. */
  lemma LatchStep(q: Queue, l: Limits, ev: Event)
    requires ev.Enqueue? ==> ev.packet != []
    requires forall i :: 0 <= i < |q.contents| ==> q.contents[i] != []
    ensures var r := Step(q, l, ev);
            && (forall i :: 0 <= i < |r.contents| ==> r.contents[i] != [])
            && (r == q || (Total(r.contents) != Total(q.contents) && r.latched == Latch(q.latched, Total(r.contents), l)))
  {
    match ev
    case Enqueue(p) => { TotalMore(q.contents, p); }
    case Dequeue => {}
  }

  /** The state after each number of events. */
  lemma {:induction false} RunContents(l: Limits, evs: seq<Event>)
    requires NonEmpty(evs)
    ensures forall i :: 0 <= i < |Run(l, evs).contents| ==> Run(l, evs).contents[i] != []
  {
    if evs != [] {
      RunContents(l, evs[..|evs| - 1]);
      LatchStep(Run(l, evs[..|evs| - 1]), l, evs[|evs| - 1]);
      hide Pushed, Popped;
    }
  }

  /** Outside the range between the thresholds the latch says where the bytes are. */
  lemma {:induction false} LatchOutside(l: Limits, evs: seq<Event>)
    requires l.resumeBytes <= l.pauseBytes && NonEmpty(evs)
    ensures var q := Run(l, evs);
            && (Total(q.contents) > l.resumeBytes && Total(q.contents) >= l.pauseBytes ==> q.latched)
            && (q.latched ==> Total(q.contents) >= l.resumeBytes)
  {
    if evs != [] {
      LatchOutside(l, evs[..|evs| - 1]);
      RunContents(l, evs[..|evs| - 1]);
      LatchStep(Run(l, evs[..|evs| - 1]), l, evs[|evs| - 1]);
      hide Pushed, Popped, Total;
    } else {
      assert Total([]) == 0;
    }
  }

  lemma BytesBefore(l: Limits, evs: seq<Event>)
    requires evs != []
    ensures forall i :: 0 <= i < |evs| ==> BytesAt(l, evs[..|evs| - 1], i) == BytesAt(l, evs, i)
    ensures BytesAt(l, evs, |evs|) == Total(Run(l, evs).contents)
  {
    assert evs[..|evs|] == evs;
    forall i | 0 <= i < |evs|
      ensures evs[..|evs| - 1][..i] == evs[..i]
    {
    }
  }

  /** The latch is set exactly when the bytes have reached the pause threshold and have stayed above the
      resume threshold since; at equal thresholds it counts from where they came. */
  lemma {:induction false} LatchedExactly(l: Limits, evs: seq<Event>)
    requires l.resumeBytes <= l.pauseBytes && NonEmpty(evs)
    ensures Run(l, evs).latched <==> SetSome(l, evs)
  {
    if evs != [] {
      var before, ev := evs[..|evs| - 1], evs[|evs| - 1];
      var q, r := Run(l, before), Run(l, evs);
      LatchedExactly(l, before);
      LatchOutside(l, before);
      RunContents(l, before);
      LatchStep(q, l, ev);
      BytesBefore(l, evs);
      assert before[..|before|] == before && BytesAt(l, evs, |evs| - 1) == Total(q.contents);
      assert r == Step(q, l, ev);
      assert Total(FRESH_QUEUE.contents) == 0;
      var was, now := Total(q.contents), Total(r.contents);
      assert r.latched == if r == q then q.latched else Latch(q.latched, now, l);
      hide *;
      SetMore(l, evs);
      LatchMore(q.latched, r.latched, was, now, l, r == q);
    }
  }

  /** What the latch does when the bytes change, and what that means for the places where it was set. */
  lemma LatchMore(before: bool, after: bool, was: nat, now: nat, l: Limits, same: bool)
    requires l.resumeBytes <= l.pauseBytes && after == (if same then before else Latch(before, now, l))
    requires (same ==> now == was) && (!same ==> now != was)
    requires (was > l.resumeBytes && was >= l.pauseBytes ==> before) && (before ==> was >= l.resumeBytes)
    ensures after <==> (before && (now > l.resumeBytes || now == was))
                       || (now >= l.pauseBytes && (now > l.resumeBytes || now > was))
  {}

  ghost predicate SetSome(l: Limits, evs: seq<Event>) { exists i: nat :: SetAt(l, evs, i) }

  /** A place where the latch was set is an earlier one that still counts, or the last event. */
  lemma SetMore(l: Limits, evs: seq<Event>)
    requires evs != []
    ensures var was, now := BytesAt(l, evs, |evs| - 1), BytesAt(l, evs, |evs|);
            SetSome(l, evs) <==> (SetSome(l, evs[..|evs| - 1]) && (now > l.resumeBytes || now == was))
                                 || (now >= l.pauseBytes && (now > l.resumeBytes || now > was))
  {
    var before := evs[..|evs| - 1];
    hide *;
    SetLast(l, evs);
    if SetSome(l, evs) {
      var i := Place(l, evs);
      if i < |evs| {
        SetEarlier(l, evs, i);
        PlaceSets(l, before, i);
      }
    }
    if SetSome(l, before) {
      var i := Place(l, before);
      SetEarlier(l, evs, i);
      if SetAt(l, evs, i) { PlaceSets(l, evs, i); }
    }
    if SetAt(l, evs, |evs|) { PlaceSets(l, evs, |evs|); }
  }

  lemma Place(l: Limits, evs: seq<Event>) returns (i: nat)
    requires SetSome(l, evs)
    ensures i <= |evs| && SetAt(l, evs, i)
  {
    i :| SetAt(l, evs, i);
  }

  lemma PlaceSets(l: Limits, evs: seq<Event>, i: nat)
    requires SetAt(l, evs, i)
    ensures SetSome(l, evs)
  {}

  lemma SetLast(l: Limits, evs: seq<Event>)
    requires evs != []
    ensures var was, now := BytesAt(l, evs, |evs| - 1), BytesAt(l, evs, |evs|);
            SetAt(l, evs, |evs|) <==> now >= l.pauseBytes && (now > l.resumeBytes || now > was)
  {
    hide BytesAt;
  }

  lemma SetEarlier(l: Limits, evs: seq<Event>, i: nat)
    requires i < |evs|
    ensures var was, now := BytesAt(l, evs, |evs| - 1), BytesAt(l, evs, |evs|);
            SetAt(l, evs, i) <==> SetAt(l, evs[..|evs| - 1], i) && (now > l.resumeBytes || now == was)
  {
    var before := evs[..|evs| - 1];
    BytesBefore(l, evs);
    hide BytesAt;
    forall j | 1 <= j < |evs|
      ensures Holds(l, before, j) <==> Holds(l, evs, j)
    {
    }
    assert Holds(l, evs, |evs|) <==> BytesAt(l, evs, |evs|) > l.resumeBytes || BytesAt(l, evs, |evs|) == BytesAt(l, evs, |evs| - 1);
    hide Holds;
  }

  /** Each pause is counted once, for the packet limit if the queue is full then and for the bytes
      otherwise; each resumption is counted once, and nothing else is. */
  lemma PauseCounted(q: Queue, l: Limits, ev: Event)
    ensures var r, c := Step(q, l, ev), q.counters;
            r.counters ==
              if !q.paused && r.paused then
                if |r.contents| == l.packets then Counters(c.pauses + 1, c.resumes, c.byBytes, c.byPackets + 1)
                else Counters(c.pauses + 1, c.resumes, c.byBytes + 1, c.byPackets)
              else if q.paused && !r.paused then c.(resumes := c.resumes + 1) else c
  {
    hide Total, Latch;
  }

  // ---------- the loops that use it ----------

  /** One turn of the client's or the server's loop: what can be read from TUN if reading is enabled, and
      whether a packet may leave, because the client is authorised or the server has no feedback window. */
  datatype LoopTurn = LoopTurn(arrived: seq<seq<Byte>>, mayLeave: bool)

  predicate TurnOk(t: LoopTurn) { |t.arrived| <= 1 && forall p :: p in t.arrived ==> |p| <= MAX_PAYLOAD_SIZE }

  function TakenIn(q: Queue, t: LoopTurn): seq<seq<Byte>> { if q.paused then [] else t.arrived }

  /** The queue after the read. */
  function AfterRead(q: Queue, l: Limits, t: LoopTurn): Queue {
    var taken := TakenIn(q, t);
    if taken == [] then q else Pushed(q, l, taken[0])
  }

  function SentOut(q: Queue, l: Limits, t: LoopTurn): seq<seq<Byte>> {
    var r := AfterRead(q, l, t);
    if t.mayLeave && r.contents != [] then [r.contents[0]] else []
  }

  function AfterTurn(q: Queue, l: Limits, t: LoopTurn): Queue {
    var r := AfterRead(q, l, t);
    if t.mayLeave then Popped(r, l) else r
  }

  /** The queue and all that was read and sent after some turns. */
  function Loop(l: Limits, turns: seq<LoopTurn>): (Queue, seq<seq<Byte>>, seq<seq<Byte>>) {
    if turns == [] then (FRESH_QUEUE, [], [])
    else
      var (q, taken, sent) := Loop(l, turns[..|turns| - 1]);
      var t := turns[|turns| - 1];
      (AfterTurn(q, l, t), taken + TakenIn(q, t), sent + SentOut(q, l, t))
  }

  lemma TurnKeeps(q: Queue, l: Limits, t: LoopTurn)
    requires QueueOk(q, l) && TurnOk(t)
    ensures TakenIn(q, t) != [] ==> Fits(q, l, TakenIn(q, t)[0])
    ensures QueueOk(AfterRead(q, l, t), l) && AfterRead(q, l, t).contents == q.contents + TakenIn(q, t)
    ensures QueueOk(AfterTurn(q, l, t), l) && SentOut(q, l, t) + AfterTurn(q, l, t).contents == q.contents + TakenIn(q, t)
    ensures TakenIn(q, t) == if q.paused then [] else t.arrived
    ensures |SentOut(q, l, t)| == if t.mayLeave && q.contents + TakenIn(q, t) != [] then 1 else 0
  {
    var taken, r := TakenIn(q, t), AfterRead(q, l, t);
    if taken != [] {
      assert taken == [taken[0]];
      NotPausedFits(q, l, taken[0]);
      PushKeeps(q, l, taken[0]);
      PushedContents(q, l, taken[0]);
    }
    PopKeeps(r, l);
    PoppedContents(r, l);
    hide QueueOk, Pushed, Popped, Fits;
    assert r.contents == q.contents + taken;
  }

  lemma TurnIs(q: Queue, l: Limits, t: LoopTurn)
    ensures AfterRead(q, l, t) == if !q.paused && t.arrived != [] then Pushed(q, l, t.arrived[0]) else q
    ensures AfterTurn(q, l, t) == if t.mayLeave then Popped(AfterRead(q, l, t), l) else AfterRead(q, l, t)
    ensures SentOut(q, l, t) == if t.mayLeave && AfterRead(q, l, t).contents != [] then [AfterRead(q, l, t).contents[0]] else []
    ensures AfterRead(q, l, t).contents == [] ==> Popped(AfterRead(q, l, t), l) == AfterRead(q, l, t)
  {
    hide Pushed, Changed;
  }

  /** However packets arrive and whenever they may leave, all packets that were read are sent or queued, in
      their order. */
  lemma {:induction false} LoopLosesNothing(l: Limits, turns: seq<LoopTurn>)
    requires l.packets > 0 && forall t :: t in turns ==> TurnOk(t)
    ensures QueueOk(Loop(l, turns).0, l) && Loop(l, turns).2 + Loop(l, turns).0.contents == Loop(l, turns).1
  {
    if turns != [] {
      var before, t := turns[..|turns| - 1], turns[|turns| - 1];
      LoopLosesNothing(l, before);
      LoopTurnMore(l, turns);
      hide *;
      var (q, taken, sent) := Loop(l, before);
      TurnKeeps(q, l, t);
      Carried(sent, q.contents, taken, SentOut(q, l, t), AfterTurn(q, l, t).contents, TakenIn(q, t));
    } else {
      assert Loop(l, turns) == (FRESH_QUEUE, [], []);
    }
  }

  lemma Carried<T>(sent: seq<T>, queued: seq<T>, taken: seq<T>, sentMore: seq<T>, left: seq<T>, takenMore: seq<T>)
    requires sent + queued == taken && sentMore + left == queued + takenMore
    ensures (sent + sentMore) + left == taken + takenMore
  {
    assert (sent + sentMore) + left == sent + (sentMore + left);
    assert sent + (queued + takenMore) == (sent + queued) + takenMore;
  }

  lemma LoopTurnMore(l: Limits, turns: seq<LoopTurn>)
    requires turns != []
    ensures var (q, taken, sent) := Loop(l, turns[..|turns| - 1]);
            var t := turns[|turns| - 1];
            Loop(l, turns) == (AfterTurn(q, l, t), taken + TakenIn(q, t), sent + SentOut(q, l, t))
  {
  }

  // ---------- the object ----------

  lemma AtModulo(head: nat, i: nat, n: nat)
    requires head < n && i <= n
    ensures (head + i) % n == At(head, i, n)
  {
    var x := head + i;
    var q, r := x / n, x % n;
    assert x == q * n + r;
    assert q >= 2 ==> q * n >= 2 * n;
    assert q == 1 ==> q * n == n;
  }

  class FixedCapacityTunReadQueue {
    const slots: array<seq<Byte>>
    const limits: Limits
    var head: nat
    var count: nat
    var queuedBytes: nat
    var latched: bool
    var paused: bool
    var reason: Reason
    var counters: Counters

    ghost predicate Shape()
      reads this`head, this`count
    {
      0 < slots.Length == limits.packets && head < slots.Length && count <= slots.Length
    }

    ghost function Contents(): (q: seq<seq<Byte>>)
      requires Shape()
      reads this`head, this`count, slots
      ensures |q| == count && forall i :: 0 <= i < count ==> q[i] == slots[At(head, i, slots.Length)]
    {
      var first, n := head, count;
      seq(n, i requires 0 <= i < n && first < slots.Length && n <= slots.Length reads slots => slots[At(first, i, slots.Length)])
    }

    ghost function Model(): Queue
      requires Shape()
      reads this, slots
    {
      Queue(Contents(), latched, paused, reason, counters)
    }

    ghost predicate Valid()
      reads this, slots
    {
      Shape() && queuedBytes == Total(Contents()) && QueueOk(Model(), limits)
    }

    constructor (limits: Limits)
      requires limits.packets > 0
      ensures Valid() && Model() == FRESH_QUEUE && this.limits == limits && fresh(slots)
    {
      this.limits := limits;
      slots := new seq<Byte>[limits.packets](i => []);
      head, count, queuedBytes, latched, paused, reason := 0, 0, 0, false, false, NoPause;
      counters := Counters(0, 0, 0, 0);
    }

    /** `refresh_bytes_pause_latch` and `update_pause_state` */
    method UpdatePauseState()
      requires Shape() && queuedBytes == Total(Contents())
      modifies this`latched, this`paused, this`reason, this`counters
      ensures Shape() && Contents() == old(Contents()) && Model() == Changed(old(Model()), limits, Contents())
    {
      if !latched && queuedBytes >= limits.pauseBytes {
        latched := true;
      } else if latched && queuedBytes <= limits.resumeBytes {
        latched := false;
      }
      var next := NoPause;
      if count == slots.Length {
        next := PacketsLimit;
      } else if latched {
        next := BytesThreshold;
      }
      if !paused && next != NoPause {
        paused, reason := true, next;
        counters := counters.(pauses := counters.pauses + 1);
        if next == BytesThreshold {
          counters := counters.(byBytes := counters.byBytes + 1);
        } else {
          counters := counters.(byPackets := counters.byPackets + 1);
        }
        return;
      }
      if paused && next == NoPause {
        paused, reason := false, NoPause;
        counters := counters.(resumes := counters.resumes + 1);
        return;
      }
      reason := next;
    }

    /** `push` */
    method Push(p: seq<Byte>) returns (ok: bool)
      requires Valid()
      modifies this, slots
      ensures Valid() && ok == Fits(old(Model()), limits, p)
      ensures Model() == Pushed(old(Model()), limits, p)
    {
      if |p| > MAX_PAYLOAD_SIZE || count == slots.Length {
        return false;
      }
      PushKeeps(Model(), limits, p);
      ghost var contents := Contents();
      AtModulo(head, count, slots.Length);
      slots[(head + count) % slots.Length] := p;
      count := count + 1;
      queuedBytes := queuedBytes + |p|;
      assert Contents() == contents + [p];
      TotalMore(contents, p);
      hide QueueOk, Total;
      UpdatePauseState();
      ok := true;
    }

    /** `front` */
    method Front() returns (some: bool, p: seq<Byte>)
      requires Valid()
      ensures some == (Contents() != []) && (some ==> p == Contents()[0])
    {
      if count == 0 { return false, []; }
      assert Contents()[0] == slots[head];
      return true, slots[head];
    }

    /** `pop_front` */
    method PopFront() returns (ok: bool)
      requires Valid()
      modifies this, slots
      ensures Valid() && ok == (old(Contents()) != [])
      ensures Model() == Popped(old(Model()), limits)
    {
      if count == 0 {
        return false;
      }
      PopKeeps(Model(), limits);
      ghost var contents := Contents();
      assert contents[0] == slots[head];
      queuedBytes := queuedBytes - |slots[head]|;
      slots[head] := [];
      AtModulo(head, 1, slots.Length);
      head := (head + 1) % slots.Length;
      count := count - 1;
      assert Contents() == contents[1..];
      assert Total(contents) == |contents[0]| + Total(contents[1..]);
      hide QueueOk, Total;
      UpdatePauseState();
      ok := true;
    }

    /** A packet is read only while reading is enabled, so the push cannot fail. */
    method TakeIn(arrived: seq<seq<Byte>>, ghost t: LoopTurn)
      requires Valid() && TurnOk(t) && t.arrived == arrived
      modifies this, slots
      ensures Valid() && Model() == AfterRead(old(Model()), limits, t)
    {
      TurnKeeps(Model(), limits, t);
      TurnIs(Model(), limits, t);
      hide QueueOk, Total, Changed, Pushed, Popped, Fits, TurnOk, Contents, At, AfterRead, AfterTurn, SentOut;
      if !paused && arrived != [] {
        var ok := Push(arrived[0]);
        assert ok;
      }
    }

    /** One turn of the client's loop: it reads a packet only while reading is enabled, so the push it
        makes cannot fail, and neither can the removal of a packet it has sent. */
    method ClientTurn(arrived: seq<seq<Byte>>, authorised: bool) returns (sent: seq<seq<Byte>>)
      requires Valid() && TurnOk(LoopTurn(arrived, authorised))
      modifies this, slots
      ensures Valid() && Model() == AfterTurn(old(Model()), limits, LoopTurn(arrived, authorised))
      ensures sent == SentOut(old(Model()), limits, LoopTurn(arrived, authorised))
      ensures var taken := if old(paused) then [] else arrived;
              && sent + Contents() == old(Contents()) + taken
              && |sent| == if authorised && old(Contents()) + taken != [] then 1 else 0
    {
      TurnKeeps(Model(), limits, LoopTurn(arrived, authorised));
      TurnIs(Model(), limits, LoopTurn(arrived, authorised));
      hide QueueOk, Total, Changed, Pushed, Popped, Fits, TurnOk, Contents, At, AfterRead, AfterTurn, TakenIn, SentOut;
      TakeIn(arrived, LoopTurn(arrived, authorised));
      var some, p := Front();
      if !some {
        return [];
      }
      if !authorised {
        return [];
      }
      sent := [p];
      var ok := PopFront();
      assert ok;
    }

    /** One turn of the server's loop: the same for packets of the downlink, which wait while a feedback
        window is open; a packet without a known destination leaves the queue too. */
    method ServerTurn(arrived: seq<seq<Byte>>, feedbackActive: bool) returns (sent: seq<seq<Byte>>)
      requires Valid() && TurnOk(LoopTurn(arrived, !feedbackActive))
      modifies this, slots
      ensures Valid() && Model() == AfterTurn(old(Model()), limits, LoopTurn(arrived, !feedbackActive))
      ensures sent == SentOut(old(Model()), limits, LoopTurn(arrived, !feedbackActive))
      ensures var taken := if old(paused) then [] else arrived;
              && sent + Contents() == old(Contents()) + taken
              && |sent| == if !feedbackActive && old(Contents()) + taken != [] then 1 else 0
    {
      TurnKeeps(Model(), limits, LoopTurn(arrived, !feedbackActive));
      TurnIs(Model(), limits, LoopTurn(arrived, !feedbackActive));
      hide QueueOk, Total, Changed, Pushed, Popped, Fits, TurnOk, Contents, At, AfterRead, AfterTurn, TakenIn, SentOut;
      sent := [];
      TakeIn(arrived, LoopTurn(arrived, !feedbackActive));
      var some, p := Front();
      if feedbackActive {
        return;
      }
      if some {
        sent := [p];
        var ok := PopFront();
        assert ok;
      }
    }
  }

  lemma PushedContents(q: Queue, l: Limits, p: seq<Byte>)
    ensures Pushed(q, l, p).contents == if Fits(q, l, p) then q.contents + [p] else q.contents
  {}

  lemma PoppedContents(q: Queue, l: Limits)
    ensures Popped(q, l).contents == if q.contents == [] then [] else q.contents[1..]
  {}

  /** While reading is enabled there is room. */
  lemma NotPausedFits(q: Queue, l: Limits, p: seq<Byte>)
    requires QueueOk(q, l) && !q.paused && |p| <= MAX_PAYLOAD_SIZE
    ensures Fits(q, l, p)
  {}
}
