/** Which nodes a sweep of the scheduler evicts: those that have let two grants pass since they were last
    heard, and have been silent for the threshold. */
module TokenSilence {
  import opened Sequences
  import opened TokenScheduling
  import opened TokenFairness

  /** The scheduler before the first event. */
  ghost function FreshScheduler(known: set<nat>): (s: Scheduler)
    ensures SchedulerOk(s)
  {
    Scheduler(known, map x | x in known :: Activity(0, 0), [], 0, 0)
  }

  /** Does the event show that the node is there? */
  predicate Heard(ev: Event, x: nat) { (ev.Ready? || ev.Uplink?) && ev.node == x }

  /** When the node was last heard; 0 stands for never. */
  function LastHeard(evs: seq<Event>, x: nat): nat {
    if evs == [] then 0
    else if Heard(evs[|evs| - 1], x) then evs[|evs| - 1].now else LastHeard(evs[..|evs| - 1], x)
  }

  /** The grants that it has got since then, each later than that. */
  ghost function LateGrants(known: set<nat>, evs: seq<Event>, x: nat): nat {
    if evs == [] then 0
    else
      var before, ev := evs[..|evs| - 1], evs[|evs| - 1];
      if Heard(ev, x) then 0
      else LateGrants(known, before, x)
           + if Granted(After(FreshScheduler(known), before), ev, x) && 0 < LastHeard(before, x) < ev.now then 1 else 0
  }

  /** Since the node was last heard no grant at or before that time comes behind a late one. */
  ghost predicate LateInOrder(known: set<nat>, evs: seq<Event>, x: nat) {
    evs == [] ||
      var before, ev := evs[..|evs| - 1], evs[|evs| - 1];
      Heard(ev, x)
      || (LateInOrder(known, before, x)
          && (Granted(After(FreshScheduler(known), before), ev, x) && !(0 < LastHeard(before, x) < ev.now) ==> LateGrants(known, before, x) == 0))
  }

  /** The clock does not go back. */
  predicate Forward(evs: seq<Event>) {
    forall i, j :: 0 <= i < j < |evs| ==> evs[i].now <= evs[j].now
  }

  /** What one event does to the record of a node. */
  lemma RecordStep(s: Scheduler, ev: Event, x: nat)
    requires SchedulerOk(s) && x in s.known
    ensures x in Apply(s, ev).known && SchedulerOk(Apply(s, ev))
    ensures var a := s.activity[x];
            Apply(s, ev).activity[x] ==
              if Heard(ev, x) then Activity(ev.now, 0)
              else if Granted(s, ev, x) then Activity(a.last, if 0 < a.last < ev.now then a.silent + 1 else 0)
              else a
  {
    ApplyOk(s, ev);
    match ev
    case Sweep(now, threshold, spared) => { CollectOk(s, now, threshold, spared, 0); }
    case Ready(node, now) => {}
    case Uplink(node, now) => {}
    case NextGrant(now) => {}
  }

  /** The record of a node: when it was last heard, and how many late grants it has got since.  The count can
      only be smaller, and is so exactly when the clock has gone back and a grant that is not late has come
      behind a late one. */
  lemma {:induction false} RecordIs(known: set<nat>, evs: seq<Event>, x: nat)
    requires x in known
    ensures var s := After(FreshScheduler(known), evs);
            && x in s.known && s.activity[x].last == LastHeard(evs, x)
            && s.activity[x].silent <= LateGrants(known, evs, x)
            && (s.activity[x].silent == LateGrants(known, evs, x) <==> LateInOrder(known, evs, x))
            && (Forward(evs) ==> LateInOrder(known, evs, x))
            && (Forward(evs) && s.activity[x].silent > 0 ==> evs != [] && 0 < LastHeard(evs, x) < evs[|evs| - 1].now)
    decreases |evs|
  {
    if evs == [] {
      assert After(FreshScheduler(known), evs) == FreshScheduler(known);
    } else {
      var before, ev := evs[..|evs| - 1], evs[|evs| - 1];
      RecordIs(known, before, x);
      RecordStep(After(FreshScheduler(known), before), ev, x);
      if Forward(evs) {
        assert forall i :: 0 <= i < |before| ==> evs[i] == before[i];
        assert before != [] ==> evs[|before| - 1].now <= ev.now;
      }
      hide Apply, SchedulerOk, Granted, FreshScheduler;
    }
  }

  /** With a clock that goes back the count really falls short. */
  lemma ClockBack()
    ensures var evs := [Ready(1, 10), NextGrant(20), NextGrant(10)];
            LateGrants({1}, evs, 1) == 1 && After(FreshScheduler({1}), evs).known == {1} && After(FreshScheduler({1}), evs).activity[1].silent == 0
  {
    var a, b, c := Ready(1, 10), NextGrant(20), NextGrant(10);
    var evs, none: seq<Event> := [a, b, c], [];
    assert [a][..0] == none && [a, b][..1] == [a] && evs[..2] == [a, b];
    var s0 := FreshScheduler({1});
    var s1, s2 := After(s0, [a]), After(s0, [a, b]);
    assert After(s0, none) == s0 && s1 == Apply(s0, a) && s1.active == [1] && s1.activity[1] == Activity(10, 0);
    assert s2 == Apply(s1, b) && s2.active == [1] && s2.activity[1] == Activity(10, 1);
    assert After(s0, evs) == Apply(s2, c);
    assert LastHeard(none, 1) == 0 && LastHeard([a], 1) == 10 && LastHeard([a, b], 1) == 10;
    assert LateGrants({1}, [a], 1) == 0 && LateGrants({1}, [a, b], 1) == 1;
  }

  function SilenceAt(evs: seq<Event>, x: nat, now: nat): nat {
    if 0 < LastHeard(evs, x) < now then now - LastHeard(evs, x) else 0
  }

  /** Over any run whose clock does not go back, a sweep evicts an active node if and only if it is not the
      one to be spared, has let two grants pass since it was last heard, and has been silent for the
      threshold. */
  lemma EvictedExactly(known: set<nat>, evs: seq<Event>, x: nat, now: nat, threshold: nat, spared: nat)
    requires x in known && Forward(evs) && x in After(FreshScheduler(known), evs).active
    ensures x !in After(FreshScheduler(known), evs + [Sweep(now, threshold, spared)]).active
            <==> x != spared && LateGrants(known, evs, x) >= 2 && SilenceAt(evs, x, now) >= threshold
  {
    RecordIs(known, evs, x);
    SweepEvicts(known, evs, x, now, threshold, spared);
  }

  /** However the clock runs, a node with fewer late grants since it was last heard is never evicted. */
  lemma HeardStays(known: set<nat>, evs: seq<Event>, x: nat, now: nat, threshold: nat, spared: nat)
    requires x in known && x in After(FreshScheduler(known), evs).active
    requires x == spared || LateGrants(known, evs, x) < 2 || SilenceAt(evs, x, now) < threshold
    ensures x in After(FreshScheduler(known), evs + [Sweep(now, threshold, spared)]).active
  {
    RecordIs(known, evs, x);
    SweepEvicts(known, evs, x, now, threshold, spared);
  }

  lemma SweepEvicts(known: set<nat>, evs: seq<Event>, x: nat, now: nat, threshold: nat, spared: nat)
    requires x in known && x in After(FreshScheduler(known), evs).active
    ensures var s := After(FreshScheduler(known), evs);
            x in s.known && (x !in After(FreshScheduler(known), evs + [Sweep(now, threshold, spared)]).active
            <==> x != spared && s.activity[x].silent >= 2
                 && (if s.activity[x].last > 0 && now > s.activity[x].last then now - s.activity[x].last else 0) >= threshold)
  {
    var s, ev := After(FreshScheduler(known), evs), Sweep(now, threshold, spared);
    var more := evs + [ev];
    assert more[..|more| - 1] == evs;
    var r := Collect(s, now, threshold, spared, 0);
    assert After(FreshScheduler(known), more) == r;
    var w := Sweeper(s.activity, now, threshold, spared);
    CollectTurn(s, now, threshold, spared, 0);
    TurnDistinct(s);
    TurnDistinct(r);
    SweptExactly(w, Turn(s), x);
    hide After, Collect, Turn, Survivors, Reports;
  }
}
