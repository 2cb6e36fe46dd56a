/** Fairness of the round-robin: what happens between two grants to a node, and how long a node
    that joins can wait. */
module TokenFairness {
  import opened Sequences
  import opened TokenScheduling

  datatype Event = Ready(node: nat, now: nat) | Uplink(node: nat, now: nat)
                 | NextGrant(now: nat) | Sweep(now: nat, threshold: nat, spared: nat)

  ghost function Apply(s: Scheduler, ev: Event): Scheduler
    requires SchedulerOk(s)
  {
    match ev
    case Ready(node, now) => Declare(s, node, now)
    case Uplink(node, now) => Observe(s, node, now)
    case NextGrant(now) => if s.active == [] then s else Grant(s, now)
    case Sweep(now, threshold, spared) => Collect(s, now, threshold, spared, 0)
  }

  /** Does the event grant this node? */
  ghost predicate Granted(s: Scheduler, ev: Event, x: nat)
    requires SchedulerOk(s)
  {
    ev.NextGrant? && s.active != [] && s.active[s.next] == x
  }

  // ---------- the order of two nodes ----------

  /** x comes before y. */
  ghost predicate Ahead(q: seq<nat>, x: nat, y: nat) {
    exists i, j :: 0 <= i < j < |q| && q[i] == x && q[j] == y
  }

  lemma AheadOneWay(q: seq<nat>, x: nat, y: nat)
    requires Distinct(q) && Ahead(q, x, y)
    ensures !Ahead(q, y, x) && x in q && y in q && x != y
  {
    var i, j :| 0 <= i < j < |q| && q[i] == x && q[j] == y;
  }

  /** The order of the others does not change when one is removed. */
  lemma AheadWithout(q: seq<nat>, x: nat, y: nat, at: nat)
    requires at < |q| && Ahead(q, x, y) && q[at] != x && q[at] != y
    ensures Ahead(Without(q, at), x, y)
  {
    var i, j :| 0 <= i < j < |q| && q[i] == x && q[j] == y;
    var i', j' := if i < at then i else i - 1, if j < at then j else j - 1;
    var w := Without(q, at);
    assert w[i'] == x && w[j'] == y;
  }

  /** Nor when one joins somewhere. */
  lemma AheadInsert(a: seq<nat>, n: nat, b: seq<nat>, x: nat, y: nat)
    requires Ahead(a + b, x, y)
    ensures Ahead(a + [n] + b, x, y)
  {
    var q := a + b;
    var i, j :| 0 <= i < j < |q| && q[i] == x && q[j] == y;
    var i', j' := if i < |a| then i else i + 1, if j < |a| then j else j + 1;
    var w := a + [n] + b;
    assert w[i'] == x && w[j'] == y;
  }

  /** Nor when the front moves to the end, for the others. */
  lemma AheadMove(q: seq<nat>, x: nat, y: nat)
    requires q != [] && Ahead(q, x, y) && q[0] != x
    ensures Ahead(q[1..] + [q[0]], x, y)
  {
    var i, j :| 0 <= i < j < |q| && q[i] == x && q[j] == y;
    var w := q[1..] + [q[0]];
    assert w[i - 1] == x && w[j - 1] == y;
  }

  /** A front that moves comes after all the others. */
  lemma AheadOfMoved(q: seq<nat>, x: nat)
    requires q != [] && x in q && x != q[0]
    ensures Ahead(q[1..] + [q[0]], x, q[0])
  {
    var i :| 0 <= i < |q| && q[i] == x;
    var w := q[1..] + [q[0]];
    assert w[i - 1] == x && w[|q| - 1] == q[0];
  }

  lemma RotatedDistinct(a: seq<nat>, n: nat)
    requires n <= |a| && Distinct(a)
    ensures Distinct(Rotated(a, n)) && forall x :: x in Rotated(a, n) <==> x in a
  {
    assert a == a[..n] + a[n..];
  }

  /** The order lists exactly the active nodes, once. */
  lemma TurnDistinct(s: Scheduler)
    requires SchedulerOk(s)
    ensures Distinct(Turn(s)) && forall x :: x in Turn(s) <==> x in s.active
  {
    RotatedDistinct(s.active, s.next);
  }

  // ---------- one event ----------

  lemma ApplyOk(s: Scheduler, ev: Event)
    requires SchedulerOk(s)
    ensures SchedulerOk(Apply(s, ev))
  {
    match ev
    case Ready(node, now) => { DeclareTurn(s, node, now); }
    case Uplink(node, now) => {}
    case NextGrant(now) => { if s.active != [] { GrantKeeps(s, now); } }
    case Sweep(now, threshold, spared) => { CollectOk(s, now, threshold, spared, 0); }
  }

  /** A sweep only removes nodes, and touches no counts. */
  lemma {:induction false} CollectOk(s: Scheduler, now: nat, threshold: nat, spared: nat, index: nat)
    requires SchedulerOk(s)
    ensures var r := Collect(s, now, threshold, spared, index);
            && SchedulerOk(r) && r.activity == s.activity && r.known == s.known && r.sequence == s.sequence
            && forall x :: x in r.active ==> x in s.active
    decreases |s.active| - index
  {
    if index < |s.active| {
      var node := s.active[index];
      if node != spared && Removable(s.activity[node], now, threshold) {
        RemoveTurn(s, index);
        var t := RemoveAt(s, index);
        assert t.activity == s.activity && t.known == s.known && t.sequence == s.sequence;
        assert forall x :: x in t.active ==> x in s.active;
        hide RemoveAt;
        CollectOk(t, now, threshold, spared, index);
      } else {
        CollectOk(s, now, threshold, spared, index + 1);
      }
    }
  }

  /** Two nodes that survive a sweep keep their order. */
  lemma {:induction false} CollectAhead(s: Scheduler, now: nat, threshold: nat, spared: nat, index: nat, x: nat, y: nat)
    requires SchedulerOk(s) && Ahead(Turn(s), x, y)
    ensures var r := Collect(s, now, threshold, spared, index);
            SchedulerOk(r) && (x in r.active && y in r.active ==> Ahead(Turn(r), x, y))
    decreases |s.active| - index
  {
    CollectOk(s, now, threshold, spared, index);
    if index < |s.active| {
      var node := s.active[index];
      if node != spared && Removable(s.activity[node], now, threshold) {
        RemoveTurn(s, index);
        CollectOk(RemoveAt(s, index), now, threshold, spared, index);
        RemovedGone(s, index);
        if node != x && node != y {
          AheadWithout(Turn(s), x, y, PlaceOf(index, s.next, |s.active|));
          hide RemoveAt, Ahead, SchedulerOk;
          CollectAhead(RemoveAt(s, index), now, threshold, spared, index, x, y);
        }
      } else {
        hide Ahead, SchedulerOk;
        CollectAhead(s, now, threshold, spared, index + 1, x, y);
      }
    }
  }

  lemma RemovedGone(s: Scheduler, index: nat)
    requires SchedulerOk(s) && index < |s.active|
    ensures s.active[index] !in RemoveAt(s, index).active
  {}

  /** What counts as removable stays in a sweep only if it is spared. */
  lemma {:induction false} SweepSpares(s: Scheduler, now: nat, threshold: nat, spared: nat, index: nat, x: nat)
    requires SchedulerOk(s) && x in s.active && s.activity[x].silent < SILENT_LIMIT
    ensures x in Collect(s, now, threshold, spared, index).active
    decreases |s.active| - index
  {
    if index < |s.active| {
      var node := s.active[index];
      if node != spared && Removable(s.activity[node], now, threshold) {
        RemoveKeeps(s, index);
        StillThere(s.active, index, x);
        SweepSpares(RemoveAt(s, index), now, threshold, spared, index, x);
      } else {
        SweepSpares(s, now, threshold, spared, index + 1, x);
      }
    }
  }

  lemma StillThere(a: seq<nat>, index: nat, x: nat)
    requires index < |a| && x in a && a[index] != x
    ensures x in Without(a, index)
  {
    var i :| 0 <= i < |a| && a[i] == x;
    assert Without(a, index)[if i < index then i else i - 1] == x;
  }

  /** An event that grants neither of two nodes and removes neither keeps their order. */
  lemma AheadStays(s: Scheduler, ev: Event, x: nat, y: nat)
    requires SchedulerOk(s) && Ahead(Turn(s), x, y) && !Granted(s, ev, x)
    requires x in Apply(s, ev).active && y in Apply(s, ev).active
    ensures SchedulerOk(Apply(s, ev)) && Ahead(Turn(Apply(s, ev)), x, y)
  {
    ApplyOk(s, ev);
    match ev
    case Ready(node, now) => {
      DeclareTurn(s, node, now);
      hide Ahead;
      if node in s.known && node !in s.active { AheadInsert(Pass(s), node, Later(s), x, y); }
    }
    case Uplink(node, now) => {}
    case NextGrant(now) => {
      if s.active != [] {
        GrantTurn(s, now);
        hide Ahead;
        AheadMove(Turn(s), x, y);
      }
    }
    case Sweep(now, threshold, spared) => {
      hide Ahead;
      CollectAhead(s, now, threshold, spared, 0, x, y);
    }
  }

  /** A granted node falls behind every other active node. */
  lemma GrantedFallsBehind(s: Scheduler, ev: Event, x: nat, y: nat)
    requires SchedulerOk(s) && Granted(s, ev, y) && x in s.active && x != y
    ensures SchedulerOk(Apply(s, ev)) && Ahead(Turn(Apply(s, ev)), x, y)
  {
    ApplyOk(s, ev);
    GrantTurn(s, ev.now);
    TurnDistinct(s);
    hide Ahead, Turn;
    AheadOfMoved(Turn(s), x);
  }

  /** Nobody that is behind another is granted. */
  lemma BehindNotGranted(s: Scheduler, ev: Event, x: nat, y: nat)
    requires SchedulerOk(s) && Ahead(Turn(s), x, y)
    ensures !Granted(s, ev, y)
  {
    TurnDistinct(s);
    if s.active != [] {
      assert Turn(s)[0] == s.active[s.next];
      var i, j :| 0 <= i < j < |Turn(s)| && Turn(s)[i] == x && Turn(s)[j] == y;
      assert Turn(s)[0] != Turn(s)[j];
    }
  }

  // ---------- runs ----------

  ghost function After(s: Scheduler, evs: seq<Event>): (r: Scheduler)
    requires SchedulerOk(s)
    ensures SchedulerOk(r)
  {
    if evs == [] then s
    else
      var t := After(s, evs[..|evs| - 1]);
      ApplyOk(t, evs[|evs| - 1]);
      Apply(t, evs[|evs| - 1])
  }

  /** How many grants a node gets. */
  ghost function Grants(s: Scheduler, evs: seq<Event>, x: nat): nat
    requires SchedulerOk(s)
  {
    if evs == [] then 0
    else
      var before, last := evs[..|evs| - 1], evs[|evs| - 1];
      Grants(s, before, x) + if Granted(After(s, before), last, x) then 1 else 0
  }

  /** How many grants there are in all. */
  ghost function AllGrants(s: Scheduler, evs: seq<Event>): nat
    requires SchedulerOk(s)
  {
    if evs == [] then 0
    else
      var before, last := evs[..|evs| - 1], evs[|evs| - 1];
      AllGrants(s, before) + if last.NextGrant? && After(s, before).active != [] then 1 else 0
  }

  ghost predicate StaysActive(s: Scheduler, evs: seq<Event>, x: nat)
    requires SchedulerOk(s)
    decreases |evs|
  {
    x in After(s, evs).active && (evs != [] ==> StaysActive(s, evs[..|evs| - 1], x))
  }

  /** The node's turn has come. */
  ghost predicate IsNext(s: Scheduler, x: nat)
    requires SchedulerOk(s)
  {
    s.active != [] && s.active[s.next] == x
  }

  /** The scheduler right after a grant. */
  ghost function JustGranted(s: Scheduler, now: nat): (t: Scheduler)
    requires SchedulerOk(s) && s.active != []
    ensures SchedulerOk(t)
  {
    GrantKeeps(s, now);
    Grant(s, now)
  }

  /** Between two grants to x that follow one another, while x stays active.  The run starts after
      the first one and ends when the second is due. */
  ghost predicate BetweenGrants(s: Scheduler, now: nat, evs: seq<Event>, x: nat)
    requires SchedulerOk(s)
  {
    && IsNext(s, x)
    && StaysActive(JustGranted(s, now), evs, x) && Grants(JustGranted(s, now), evs, x) == 0
    && IsNext(After(JustGranted(s, now), evs), x)
  }

  /** z has been granted c times and stands before or after x accordingly. */
  ghost predicate Owed(s: Scheduler, x: nat, z: nat, c: nat)
    requires SchedulerOk(s)
  {
    (c == 0 && Ahead(Turn(s), z, x)) || (c == 1 && Ahead(Turn(s), x, z))
  }

  lemma OwedStep(s: Scheduler, ev: Event, x: nat, z: nat, c: nat)
    requires SchedulerOk(s) && Owed(s, x, z, c) && !Granted(s, ev, x)
    requires x in Apply(s, ev).active && z in Apply(s, ev).active
    ensures SchedulerOk(Apply(s, ev)) && Owed(Apply(s, ev), x, z, c + if Granted(s, ev, z) then 1 else 0)
  {
    TurnDistinct(s);
    hide Turn, Apply, SchedulerOk;
    if c == 0 && Ahead(Turn(s), z, x) {
      AheadOneWay(Turn(s), z, x);
      hide Ahead;
      if Granted(s, ev, z) { GrantedFallsBehind(s, ev, x, z); } else { AheadStays(s, ev, z, x); }
    } else {
      hide Ahead;
      BehindNotGranted(s, ev, x, z);
      AheadStays(s, ev, x, z);
    }
  }

  lemma {:induction false} OwedRun(s: Scheduler, evs: seq<Event>, x: nat, z: nat)
    requires SchedulerOk(s) && Ahead(Turn(s), z, x)
    requires StaysActive(s, evs, x) && StaysActive(s, evs, z) && Grants(s, evs, x) == 0
    ensures Owed(After(s, evs), x, z, Grants(s, evs, z))
    decreases |evs|
  {
    if evs != [] {
      var before, last := evs[..|evs| - 1], evs[|evs| - 1];
      OwedRun(s, before, x, z);
      hide SchedulerOk, Apply, Granted, Owed;
      OwedStep(After(s, before), last, x, z, Grants(s, before, z));
    }
  }

  /** Between two consecutive grants to x, every other node that is active throughout gets exactly one. */
  lemma ExactlyOneGrant(s: Scheduler, now: nat, evs: seq<Event>, x: nat, z: nat)
    requires SchedulerOk(s) && BetweenGrants(s, now, evs, x) && z != x
    requires StaysActive(JustGranted(s, now), evs, z)
    ensures Grants(JustGranted(s, now), evs, z) == 1
  {
    var t := JustGranted(s, now);
    ActiveAtStart(t, evs, z);
    GrantedFallsBehind(s, NextGrant(now), z, x);
    OwedRun(t, evs, x, z);
    var r := After(t, evs);
    TurnDistinct(r);
    NextHasNobodyAhead(r, z, x);
  }

  lemma {:induction false} ActiveAtStart(s: Scheduler, evs: seq<Event>, x: nat)
    requires SchedulerOk(s) && StaysActive(s, evs, x)
    ensures x in s.active
    decreases |evs|
  {
    if evs != [] { ActiveAtStart(s, evs[..|evs| - 1], x); }
  }

  /** The node whose turn it is has nobody ahead of it. */
  lemma NextHasNobodyAhead(s: Scheduler, z: nat, x: nat)
    requires SchedulerOk(s) && IsNext(s, x)
    ensures !Ahead(Turn(s), z, x)
  {
    if Ahead(Turn(s), z, x) { BehindNotGranted(s, NextGrant(0), z, x); }
  }

  // ---------- nodes that come and go ----------

  /** z has been granted c times: after the first it stands behind x, is gone, or has rejoined and
      been heard; after the second it stands behind x and is too fresh to be removed. */
  ghost predicate Limited(s: Scheduler, x: nat, z: nat, c: nat)
    requires SchedulerOk(s)
  {
    || c == 0
    || (c == 1 && (z !in s.active || Ahead(Turn(s), x, z) || s.activity[z].silent == 0))
    || (c == 2 && z in s.active && Ahead(Turn(s), x, z) && s.activity[z].silent < SILENT_LIMIT)
  }

  /** The silence count of a node changes only by its own grants and declarations. */
  lemma SilentAfter(s: Scheduler, ev: Event, z: nat)
    requires SchedulerOk(s) && z in s.known
    ensures SchedulerOk(Apply(s, ev)) && z in Apply(s, ev).known
    ensures Apply(s, ev).activity[z].silent <= s.activity[z].silent + if Granted(s, ev, z) then 1 else 0
    ensures z in Apply(s, ev).active && z !in s.active ==> Apply(s, ev).activity[z].silent == 0
  {
    ApplyOk(s, ev);
    match ev
    case Sweep(now, threshold, spared) => { CollectOk(s, now, threshold, spared, 0); }
    case Ready(node, now) => {}
    case Uplink(node, now) => {}
    case NextGrant(now) => {}
  }

  /** A node that is not silent for long is not removed. */
  lemma NotRemoved(s: Scheduler, ev: Event, z: nat)
    requires SchedulerOk(s) && z in s.active && s.activity[z].silent < SILENT_LIMIT
    ensures z in Apply(s, ev).active
  {
    match ev
    case Sweep(now, threshold, spared) => { SweepSpares(s, now, threshold, spared, 0, z); }
    case Ready(node, now) => {}
    case Uplink(node, now) => {}
    case NextGrant(now) => {}
  }

  lemma LimitedStep(s: Scheduler, ev: Event, x: nat, z: nat, c: nat)
    requires SchedulerOk(s) && Limited(s, x, z, c) && x in s.active && z != x && z in s.known
    requires !Granted(s, ev, x) && x in Apply(s, ev).active
    ensures SchedulerOk(Apply(s, ev)) && Limited(Apply(s, ev), x, z, c + if Granted(s, ev, z) then 1 else 0)
  {
    ApplyOk(s, ev);
    SilentAfter(s, ev, z);
    var r := Apply(s, ev);
    if z in s.active && Ahead(Turn(s), x, z) { BehindNotGranted(s, ev, x, z); }
    hide Ahead, Turn, Apply;
    if Granted(s, ev, z) {
      GrantedFallsBehind(s, ev, x, z);
      GrantedActive(s, ev, z);
    } else if z in s.active && Ahead(Turn(s), x, z) {
      if c == 2 { NotRemoved(s, ev, z); }
      if z in r.active { AheadStays(s, ev, x, z); }
    }
  }

  lemma GrantedActive(s: Scheduler, ev: Event, z: nat)
    requires SchedulerOk(s) && Granted(s, ev, z)
    ensures z in s.active && z in Apply(s, ev).active
  {}

  lemma KnownStays(s: Scheduler, ev: Event)
    requires SchedulerOk(s)
    ensures Apply(s, ev).known == s.known
  {
    match ev
    case Sweep(now, threshold, spared) => { CollectOk(s, now, threshold, spared, 0); }
    case Ready(node, now) => {}
    case Uplink(node, now) => {}
    case NextGrant(now) => {}
  }

  lemma {:induction false} LimitedRun(s: Scheduler, evs: seq<Event>, x: nat, z: nat)
    requires SchedulerOk(s) && z != x && z in s.known && StaysActive(s, evs, x) && Grants(s, evs, x) == 0
    ensures Limited(After(s, evs), x, z, Grants(s, evs, z)) && z in After(s, evs).known
    decreases |evs|
  {
    if evs != [] {
      var before, last := evs[..|evs| - 1], evs[|evs| - 1];
      LimitedRun(s, before, x, z);
      KnownStays(After(s, before), last);
      hide SchedulerOk, Apply, Granted, Limited;
      assert x in After(s, before).active;
      LimitedStep(After(s, before), last, x, z, Grants(s, before, z));
    }
  }

  /** Between two consecutive grants to x no other node gets more than two, however often it is
      removed and joins again. */
  lemma AtMostTwoGrants(s: Scheduler, now: nat, evs: seq<Event>, x: nat, z: nat)
    requires SchedulerOk(s) && BetweenGrants(s, now, evs, x) && z != x && z in s.known
    ensures Grants(JustGranted(s, now), evs, z) <= 2
  {
    LimitedRun(JustGranted(s, now), evs, x, z);
  }

  // ---------- joining ----------

  /** The node is still to be granted in this pass, with at most p grants before it. */
  ghost predicate Waits(s: Scheduler, x: nat, p: int)
    requires SchedulerOk(s)
  {
    exists i :: 0 <= i < |Pass(s)| && i <= p && Pass(s)[i] == x
  }

  lemma WaitsRemove(s: Scheduler, index: nat, x: nat, p: int)
    requires SchedulerOk(s) && Waits(s, x, p) && index < |s.active| && s.active[index] != x
    ensures SchedulerOk(RemoveAt(s, index)) && Waits(RemoveAt(s, index), x, p)
  {
    RemoveKeeps(s, index);
    var i :| 0 <= i < |Pass(s)| && i <= p && Pass(s)[i] == x;
    var t := RemoveAt(s, index);
    CursorAfter(s.next, index, |s.active|);
    var j := if index < s.next || i + s.next < index then i else i - 1;
    assert s.active[s.next + i] == x;
    hide SchedulerOk;
    assert Pass(t)[j] == x;
  }

  lemma {:induction false} WaitsSweep(s: Scheduler, now: nat, threshold: nat, spared: nat, index: nat, x: nat, p: int)
    requires SchedulerOk(s) && Waits(s, x, p) && x in Collect(s, now, threshold, spared, index).active
    ensures SchedulerOk(Collect(s, now, threshold, spared, index)) && Waits(Collect(s, now, threshold, spared, index), x, p)
    decreases |s.active| - index
  {
    if index < |s.active| {
      var node := s.active[index];
      if node != spared && Removable(s.activity[node], now, threshold) {
        RemovedGone(s, index);
        RemoveKeeps(s, index);
        CollectOk(RemoveAt(s, index), now, threshold, spared, index);
        WaitsRemove(s, index, x, p);
        hide RemoveAt, Waits, SchedulerOk;
        WaitsSweep(RemoveAt(s, index), now, threshold, spared, index, x, p);
      } else {
        WaitsSweep(s, now, threshold, spared, index + 1, x, p);
      }
    }
  }

  lemma WaitsGrant(s: Scheduler, now: nat, x: nat, p: int)
    requires SchedulerOk(s) && Waits(s, x, p) && s.active[s.next] != x
    ensures SchedulerOk(Grant(s, now)) && Waits(Grant(s, now), x, p - 1)
  {
    GrantKeeps(s, now);
    var i :| 0 <= i < |Pass(s)| && i <= p && Pass(s)[i] == x;
    assert s.active[s.next + i] == x && i > 0;
    NextModulo(s.next, |s.active|);
    assert Pass(Grant(s, now))[i - 1] == x;
  }

  lemma WaitsStep(s: Scheduler, ev: Event, x: nat, p: int)
    requires SchedulerOk(s) && Waits(s, x, p) && !Granted(s, ev, x) && x in Apply(s, ev).active
    ensures SchedulerOk(Apply(s, ev))
    ensures Waits(Apply(s, ev), x, p - if ev.NextGrant? && s.active != [] then 1 else 0)
  {
    ApplyOk(s, ev);
    match ev
    case Sweep(now, threshold, spared) => { hide Waits; WaitsSweep(s, now, threshold, spared, 0, x, p); }
    case Ready(node, now) => {
      var i :| 0 <= i < |Pass(s)| && i <= p && Pass(s)[i] == x;
      assert Pass(Apply(s, ev))[i] == x;
    }
    case Uplink(node, now) => { assert Pass(Apply(s, ev)) == Pass(s); }
    case NextGrant(now) => { if s.active != [] { hide Waits; WaitsGrant(s, now, x, p); } }
  }

  lemma {:induction false} WaitsRun(s: Scheduler, evs: seq<Event>, x: nat, p: int)
    requires SchedulerOk(s) && Waits(s, x, p) && StaysActive(s, evs, x) && Grants(s, evs, x) == 0
    ensures Waits(After(s, evs), x, p - AllGrants(s, evs))
    decreases |evs|
  {
    if evs != [] {
      var before, last := evs[..|evs| - 1], evs[|evs| - 1];
      WaitsRun(s, before, x, p);
      hide SchedulerOk, Apply, Granted, Waits, Pass;
      assert !Granted(After(s, before), last, x) && x in Apply(After(s, before), last).active;
      hide StaysActive, Grants;
      WaitsStep(After(s, before), last, x, p - AllGrants(s, before));
    }
  }

  /** The scheduler right after a declaration. */
  ghost function JustDeclared(s: Scheduler, node: nat, now: nat): (t: Scheduler)
    requires SchedulerOk(s)
    ensures SchedulerOk(t)
  {
    DeclareTurn(s, node, now);
    Declare(s, node, now)
  }

  /** A node that joins is granted within as many grants as there are active nodes, itself included,
      unless it is removed first: as long as it has not been granted there have been fewer. */
  lemma JoinedIsGrantedSoon(s: Scheduler, node: nat, now: nat, evs: seq<Event>)
    requires SchedulerOk(s) && node in s.known && node !in s.active
    requires StaysActive(JustDeclared(s, node, now), evs, node) && Grants(JustDeclared(s, node, now), evs, node) == 0
    ensures AllGrants(JustDeclared(s, node, now), evs) < |JustDeclared(s, node, now).active|
  {
    var t := JustDeclared(s, node, now);
    assert Pass(t)[|Pass(s)|] == node;
    assert Waits(t, node, |Pass(s)|);
    hide Declare, SchedulerOk, Waits;
    WaitsRun(t, evs, node, |Pass(s)|);
    WaitsNonnegative(After(t, evs), node, |Pass(s)| - AllGrants(t, evs));
  }

  lemma WaitsNonnegative(s: Scheduler, x: nat, p: int)
    requires SchedulerOk(s) && Waits(s, x, p)
    ensures p >= 0
  {}
}
