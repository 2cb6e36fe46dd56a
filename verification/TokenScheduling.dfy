/** The round-robin grant scheduler of src/token_scheduler.cpp. */
module TokenScheduling {
  import opened Sequences

  const SILENT_LIMIT := 2   // kSilentGrantRemovalThreshold

  /** NodeActivityState */
  datatype Activity = Activity(last: nat, silent: nat)

  datatype Scheduler = Scheduler(known: set<nat>, activity: map<nat, Activity>,
                                 active: seq<nat>, next: nat, sequence: nat)

  /** Active nodes are known and listed once; the cursor is on one of them. */
  ghost predicate SchedulerOk(s: Scheduler) {
    && Distinct(s.active) && (forall x :: x in s.active ==> x in s.known) && s.activity.Keys == s.known
    && (if s.active == [] then s.next == 0 else s.next < |s.active|)
  }

  /** The nodes in the order in which they would be granted if nothing else happened. */
  function Turn(s: Scheduler): seq<nat>
    requires s.next <= |s.active|
  {
    Rotated(s.active, s.next)
  }

  function Rotated(a: seq<nat>, n: nat): (r: seq<nat>)
    requires n <= |a|
    ensures |r| == |a|
  {
    a[n..] + a[..n]
  }

  // ---------- the operations ----------

  function Recorded(s: Scheduler, node: nat, now: nat): Scheduler {
    s.(activity := s.activity[node := Activity(now, 0)])
  }

  /** `declare_ready_with_result` */
  function Declare(s: Scheduler, node: nat, now: nat): Scheduler {
    if node !in s.known then s
    else if node in s.active then Recorded(s, node, now)
    else Recorded(s, node, now).(active := s.active + [node])
  }

  /** `observe_uplink_data` */
  function Observe(s: Scheduler, node: nat, now: nat): Scheduler {
    if node !in s.known then s else Recorded(s, node, now)
  }

  /** The silence count of a node that is about to be granted. */
  function Counted(a: Activity, now: nat): Activity {
    if a.last == 0 || now <= a.last then a.(silent := 0) else a.(silent := a.silent + 1)
  }

  /** `next_grant` for a non-empty list: the node under the cursor gets the next sequence number. */
  function Grant(s: Scheduler, now: nat): Scheduler
    requires SchedulerOk(s) && s.active != []
  {
    var node := s.active[s.next];
    s.(activity := s.activity[node := Counted(s.activity[node], now)],
       sequence := s.sequence + 1, next := (s.next + 1) % |s.active|)
  }

  function Without(s: seq<nat>, i: nat): (r: seq<nat>)
    requires i < |s|
    ensures |r| == |s| - 1
  {
    s[..i] + s[i + 1..]
  }

  /** `remove_active_node_at` */
  function RemoveAt(s: Scheduler, index: nat): Scheduler
    requires index < |s.active|
  {
    var rest := Without(s.active, index);
    if rest == [] then s.(active := rest, next := 0)
    else
      var n := if index < s.next then s.next - 1
               else if index == s.next && s.next == |rest| then 0 else s.next;
      s.(active := rest, next := n % |rest|)
  }

  function Silence(a: Activity, now: nat): nat { if a.last > 0 && now > a.last then now - a.last else 0 }

  /** May the node be dropped? */
  predicate Removable(a: Activity, now: nat, threshold: nat) {
    a.silent >= SILENT_LIMIT && Silence(a, now) >= threshold
  }

  /** The scan of `collect_silent_node_removals` from an index on. */
  ghost function Collect(s: Scheduler, now: nat, threshold: nat, spared: nat, index: nat): Scheduler
    requires SchedulerOk(s)
    decreases |s.active| - index
  {
    if index >= |s.active| then s
    else
      var node := s.active[index];
      if node != spared && Removable(s.activity[node], now, threshold) then
        RemoveKeeps(s, index);
        Collect(RemoveAt(s, index), now, threshold, spared, index)
      else Collect(s, now, threshold, spared, index + 1)
  }

  /** Removal keeps the list and the cursor right. */
  lemma RemoveKeeps(s: Scheduler, index: nat)
    requires SchedulerOk(s) && index < |s.active|
    ensures SchedulerOk(RemoveAt(s, index))
  {
    var rest := Without(s.active, index);
    forall x | x in rest
      ensures x in s.active
    {
      var i :| 0 <= i < |rest| && rest[i] == x;
      assert rest[i] == s.active[if i < index then i else i + 1];
    }
    forall i, j | 0 <= i < j < |rest|
      ensures rest[i] != rest[j]
    {
      assert rest[i] == s.active[if i < index then i else i + 1] && rest[j] == s.active[if j < index then j else j + 1];
    }
  }

  // ---------- the turn order ----------

  lemma RotatedNext(a: seq<nat>, n: nat)
    requires n < |a|
    ensures Rotated(a, n)[0] == a[n]
    ensures Rotated(a, if n + 1 == |a| then 0 else n + 1) == Rotated(a, n)[1..] + [a[n]]
  {
    assert Rotated(a, n)[1..] == a[n + 1..] + a[..n];
    assert a[..n] + [a[n]] == a[..n + 1];
    if n + 1 == |a| { assert a[..n + 1] == a; }
  }

  lemma NextModulo(n: nat, size: nat)
    requires n < size
    ensures (n + 1) % size == if n + 1 == size then 0 else n + 1
  {}

  lemma GrantKeeps(s: Scheduler, now: nat)
    requires SchedulerOk(s) && s.active != []
    ensures SchedulerOk(Grant(s, now))
  {
    hide Counted;
    assert s.active[s.next] in s.active;
  }

  /** A grant moves the front of the order to its end. */
  lemma GrantTurn(s: Scheduler, now: nat)
    requires SchedulerOk(s) && s.active != []
    ensures SchedulerOk(Grant(s, now)) && Turn(s)[0] == s.active[s.next]
    ensures Turn(Grant(s, now)) == Turn(s)[1..] + [Turn(s)[0]]
  {
    GrantKeeps(s, now);
    RotatedNext(s.active, s.next);
    NextModulo(s.next, |s.active|);
    hide Rotated, Counted, SchedulerOk;
  }

  /** What is granted before the cursor wraps, and what comes after that. */
  function Pass(s: Scheduler): seq<nat>
    requires s.next <= |s.active|
  {
    s.active[s.next..]
  }

  function Later(s: Scheduler): seq<nat>
    requires s.next <= |s.active|
  {
    s.active[..s.next]
  }

  /** A node that joins comes after all that are still to be granted in this pass. */
  lemma DeclareTurn(s: Scheduler, node: nat, now: nat)
    requires SchedulerOk(s)
    ensures SchedulerOk(Declare(s, node, now))
    ensures Turn(Declare(s, node, now)) == if node in s.known && node !in s.active then Pass(s) + [node] + Later(s) else Turn(s)
  {
  }

  /** Where the removed node stood in the order. */
  function PlaceOf(index: nat, next: nat, size: nat): (at: nat)
    requires index < size && next < size
    ensures at < size
  {
    if index < next then index + size - next else index - next
  }

  lemma RotatedWithout(a: seq<nat>, n: nat, i: nat)
    requires n < |a| && i < |a|
    ensures Rotated(a, n)[PlaceOf(i, n, |a|)] == a[i]
    ensures i < n ==> Rotated(Without(a, i), n - 1) == Without(Rotated(a, n), PlaceOf(i, n, |a|))
    ensures i >= n ==> Rotated(Without(a, i), n) == Without(Rotated(a, n), PlaceOf(i, n, |a|))
    ensures n == |a| - 1 == i ==> Rotated(Without(a, i), 0) == Without(Rotated(a, n), PlaceOf(i, n, |a|))
  {
    var b := Without(a, i);
    assert forall x :: 0 <= x < |b| ==> b[x] == a[if x < i then x else x + 1];
    var r, at := Rotated(a, n), PlaceOf(i, n, |a|);
    var w := Without(r, at);
    assert forall x :: 0 <= x < |w| ==> w[x] == r[if x < at then x else x + 1];
    hide Without;
  }

  lemma CursorAfter(n: nat, i: nat, size: nat)
    requires 1 < size && n < size && i < size
    ensures (if i < n then n - 1 else if i == n && n == size - 1 then 0 else n) % (size - 1)
            == if i < n then n - 1 else if n == size - 1 then 0 else n
  {}

  /** Removing a node removes it from the order and moves nothing else, wherever the cursor is. */
  lemma RemoveTurn(s: Scheduler, index: nat)
    requires SchedulerOk(s) && index < |s.active|
    ensures SchedulerOk(RemoveAt(s, index))
    ensures var at := PlaceOf(index, s.next, |s.active|);
            Turn(s)[at] == s.active[index] && Turn(RemoveAt(s, index)) == Without(Turn(s), at)
  {
    RemoveKeeps(s, index);
    RotatedWithout(s.active, s.next, index);
    if |s.active| > 1 { CursorAfter(s.next, index, |s.active|); }
    hide Rotated, Without, SchedulerOk;
  }

  // ---------- what a sweep leaves and reports ----------

  datatype SilentNodeRemoval = SilentNodeRemoval(node: nat, silence: nat, silentGrants: nat)

  /** What a sweep looks at. */
  datatype Sweeper = Sweeper(activity: map<nat, Activity>, now: nat, threshold: nat, spared: nat)

  predicate Evicts(w: Sweeper, node: nat) {
    node in w.activity && node != w.spared && Removable(w.activity[node], w.now, w.threshold)
  }

  /** The nodes that stay, in their order. */
  function Survivors(w: Sweeper, nodes: seq<nat>): seq<nat> {
    if nodes == [] then []
    else (if Evicts(w, nodes[0]) then [] else [nodes[0]]) + Survivors(w, nodes[1..])
  }

  /** The report on the others, in their order. */
  function Reports(w: Sweeper, nodes: seq<nat>): seq<SilentNodeRemoval> {
    if nodes == [] then []
    else
      var x := nodes[0];
      (if Evicts(w, x) then [Report(w, x)] else []) + Reports(w, nodes[1..])
  }

  function Report(w: Sweeper, node: nat): SilentNodeRemoval
    requires node in w.activity
  {
    SilentNodeRemoval(node, Silence(w.activity[node], w.now), w.activity[node].silent)
  }

  /** A node stays or is reported, once each, and never both. */
  lemma {:induction false} SweptExactly(w: Sweeper, nodes: seq<nat>, x: nat)
    ensures x in Survivors(w, nodes) <==> x in nodes && !Evicts(w, x)
    ensures (exists r :: r in Reports(w, nodes) && r.node == x) <==> x in nodes && Evicts(w, x)
    ensures |Survivors(w, nodes)| + |Reports(w, nodes)| == |nodes|
  {
    assert nodes != [] && Evicts(w, nodes[0]) ==> nodes[0] in w.activity;
    hide Evicts;
    if nodes != [] {
      var rest := nodes[1..];
      SweptExactly(w, rest, x);
      if Evicts(w, nodes[0]) {
        var e: seq<nat> := [];
        assert e + Survivors(w, rest) == Survivors(w, rest);
        var r := Report(w, nodes[0]);
        assert Reports(w, nodes) == [r] + Reports(w, rest);
        assert r in Reports(w, nodes) && r.node == nodes[0];
        assert forall n :: n in Reports(w, nodes) <==> n == r || n in Reports(w, rest);
      } else {
        var e: seq<SilentNodeRemoval> := [];
        assert e + Reports(w, rest) == Reports(w, rest);
        assert Reports(w, nodes) == Reports(w, rest);
      }
    }
  }

  lemma {:induction false} SurvivorsJoin(w: Sweeper, a: seq<nat>, b: seq<nat>)
    ensures Survivors(w, a + b) == Survivors(w, a) + Survivors(w, b)
  {
    hide *;
    if a == [] {
      assert a + b == b;
      SurvivorsFirst(w, a);
    } else {
      SurvivorsJoin(w, a[1..], b);
      assert (a + b)[1..] == a[1..] + b && (a + b)[0] == a[0];
      SurvivorsFirst(w, a + b);
      SurvivorsFirst(w, a);
    }
  }

  lemma SurvivorsFirst(w: Sweeper, a: seq<nat>)
    ensures a == [] ==> Survivors(w, a) == []
    ensures a != [] ==> Survivors(w, a) == (if Evicts(w, a[0]) then [] else [a[0]]) + Survivors(w, a[1..])
  {
  }

  lemma SurvivorsWithout(w: Sweeper, a: seq<nat>, i: nat)
    requires i < |a| && Evicts(w, a[i])
    ensures Survivors(w, Without(a, i)) == Survivors(w, a)
  {
    hide Evicts;
    assert a == a[..i] + ([a[i]] + a[i + 1..]);
    SurvivorsJoin(w, a[..i], [a[i]] + a[i + 1..]);
    SurvivorsJoin(w, [a[i]], a[i + 1..]);
    SurvivorsJoin(w, a[..i], a[i + 1..]);
    assert Survivors(w, [a[i]]) == [];
  }

  lemma {:induction false} AllSurvive(w: Sweeper, a: seq<nat>)
    requires forall x :: x in a ==> !Evicts(w, x)
    ensures Survivors(w, a) == a
  {
    hide Evicts;
    if a != [] { AllSurvive(w, a[1..]); }
  }

  /** A sweep takes exactly the nodes it evicts out of the turn order and moves nothing else. */
  lemma {:induction false} CollectTurn(s: Scheduler, now: nat, threshold: nat, spared: nat, index: nat)
    requires SchedulerOk(s) && index <= |s.active|
    requires forall i :: 0 <= i < index ==> !Evicts(Sweeper(s.activity, now, threshold, spared), s.active[i])
    ensures SchedulerOk(Collect(s, now, threshold, spared, index))
    ensures Turn(Collect(s, now, threshold, spared, index)) == Survivors(Sweeper(s.activity, now, threshold, spared), Turn(s))
    decreases |s.active| - index
  {
    var w := Sweeper(s.activity, now, threshold, spared);
    assert s.next <= |s.active| && |Turn(s)| == |s.active| && (s.active != [] ==> s.next < |s.active|);
    hide *;
    if index == |s.active| {
      NothingToCollect(s, now, threshold, spared);
      AllSurvive(w, Turn(s));
    } else {
      CollectStep(s, now, threshold, spared, index);
      if Evicts(w, s.active[index]) {
        RemoveTurn(s, index);
        SurvivorsWithout(w, Turn(s), PlaceOf(index, s.next, |s.active|));
        CollectTurn(RemoveAt(s, index), now, threshold, spared, index);
      } else {
        CollectTurn(s, now, threshold, spared, index + 1);
      }
    }
  }

  lemma NothingToCollect(s: Scheduler, now: nat, threshold: nat, spared: nat)
    requires SchedulerOk(s)
    ensures Collect(s, now, threshold, spared, |s.active|) == s
    ensures forall x :: x in Turn(s) ==> x in s.active
  {
  }

  /** One step of the scan. */
  lemma CollectStep(s: Scheduler, now: nat, threshold: nat, spared: nat, index: nat)
    requires SchedulerOk(s) && index < |s.active|
    ensures var t := RemoveAt(s, index);
            && SchedulerOk(t) && t.activity == s.activity && |t.active| == |s.active| - 1
            && t.active[..index] == s.active[..index] && t.active[index..] == s.active[index + 1..]
            && Collect(s, now, threshold, spared, index)
               == if Evicts(Sweeper(s.activity, now, threshold, spared), s.active[index]) then Collect(t, now, threshold, spared, index)
                  else Collect(s, now, threshold, spared, index + 1)
  {
    RemoveKeeps(s, index);
    assert s.active[index] in s.active && s.active[index] in s.activity;
    hide SchedulerOk, Removable;
  }

  // ---------- the object ----------

  datatype DeclareResult = Rejected | Enqueued | Refreshed

  datatype TokenGrant = TokenGrant(node: nat, sequence: nat, duration: nat, guardInterval: nat)

  class TokenScheduler {
    const knownNodeIds: set<nat>
    var nodeActivity: map<nat, Activity>
    var activeNodeIds: seq<nat>
    var nextIndex: nat
    var sequence: nat
    const durationMs: nat
    const guardIntervalMs: nat

    ghost function Model(): Scheduler
      reads this
    {
      Scheduler(knownNodeIds, nodeActivity, activeNodeIds, nextIndex, sequence)
    }

    ghost predicate Valid()
      reads this
    {
      SchedulerOk(Model())
    }

    constructor (nodes: seq<nat>, duration: nat, guardInterval: nat)
      requires nodes != [] && duration > 0
      ensures Valid() && activeNodeIds == [] && sequence == 0 && knownNodeIds == set x | x in nodes
    {
      knownNodeIds := set x | x in nodes;
      nodeActivity := map x | x in nodes :: Activity(0, 0);
      activeNodeIds, nextIndex, sequence := [], 0, 0;
      durationMs, guardIntervalMs := duration, guardInterval;
    }

    /** `record_node_activity` */
    method RecordActivity(node: nat, now: nat)
      requires Valid() && node in knownNodeIds
      modifies this`nodeActivity
      ensures Valid() && Model() == Recorded(old(Model()), node, now)
    {
      nodeActivity := nodeActivity[node := Activity(now, 0)];
    }

    /** `declare_ready_with_result` */
    method DeclareReady(node: nat, now: nat) returns (result: DeclareResult)
      requires Valid()
      modifies this`nodeActivity, this`activeNodeIds
      ensures Valid() && Model() == Declare(old(Model()), node, now)
      ensures result == if node !in knownNodeIds then Rejected else if node in old(activeNodeIds) then Refreshed else Enqueued
    {
      if node !in knownNodeIds {
        return Rejected;
      }
      RecordActivity(node, now);
      for i := 0 to |activeNodeIds|
        invariant node !in activeNodeIds[..i]
      {
        if activeNodeIds[i] == node {
          return Refreshed;
        }
      }
      assert activeNodeIds[..|activeNodeIds|] == activeNodeIds;
      activeNodeIds := activeNodeIds + [node];
      result := Enqueued;
    }

    /** `observe_uplink_data` */
    method ObserveUplinkData(node: nat, now: nat)
      requires Valid()
      modifies this`nodeActivity
      ensures Valid() && Model() == Observe(old(Model()), node, now)
    {
      if node !in knownNodeIds {
        return;
      }
      RecordActivity(node, now);
    }

    /** `allocate_sequence` */
    method AllocateSequence() returns (number: nat)
      modifies this`sequence
      ensures number == old(sequence) && sequence == old(sequence) + 1
    {
      number := sequence;
      sequence := sequence + 1;
    }

    /** `next_grant` */
    method NextGrant(now: nat) returns (ok: bool, grant: TokenGrant)
      requires Valid()
      modifies this`nodeActivity, this`sequence, this`nextIndex
      ensures Valid() && ok == (old(activeNodeIds) != [])
      ensures !ok ==> Model() == old(Model())
      ensures ok ==> Model() == Grant(old(Model()), now)
                     && grant == TokenGrant(Turn(old(Model()))[0], old(sequence), durationMs, guardIntervalMs)
    {
      grant := TokenGrant(0, 0, 0, 0);
      if activeNodeIds == [] {
        return false, grant;
      }
      ghost var s := Model();
      GrantTurn(s, now);
      var node := activeNodeIds[nextIndex];
      assert node in activeNodeIds;
      var activity := nodeActivity[node];
      if activity.last == 0 || now <= activity.last {
        nodeActivity := nodeActivity[node := activity.(silent := 0)];
      } else {
        nodeActivity := nodeActivity[node := activity.(silent := activity.silent + 1)];
      }
      var number := AllocateSequence();
      grant := TokenGrant(node, number, durationMs, guardIntervalMs);
      nextIndex := (nextIndex + 1) % |activeNodeIds|;
      ok := true;
    }

    /** `remove_active_node_at` */
    method RemoveActiveNodeAt(index: nat)
      requires Valid()
      modifies this`activeNodeIds, this`nextIndex
      ensures Valid() && Model() == if index < |old(activeNodeIds)| then RemoveAt(old(Model()), index) else old(Model())
    {
      if index >= |activeNodeIds| {
        return;
      }
      RemoveKeeps(Model(), index);
      activeNodeIds := activeNodeIds[..index] + activeNodeIds[index + 1..];
      if activeNodeIds == [] {
        nextIndex := 0;
        return;
      }
      if index < nextIndex {
        nextIndex := nextIndex - 1;
      } else if index == nextIndex && nextIndex == |activeNodeIds| {
        nextIndex := 0;
      }
      nextIndex := nextIndex % |activeNodeIds|;
    }

    /** The sum is taken in 32 bits before it is widened. */
    function Threshold(): nat { (durationMs + guardIntervalMs) % 0x1_0000_0000 * SILENT_LIMIT }

    /** `collect_silent_node_removals` */
    method CollectSilentNodeRemovals(now: nat, spared: nat) returns (removed: seq<SilentNodeRemoval>)
      requires Valid()
      modifies this`activeNodeIds, this`nextIndex
      ensures Valid() && Model() == Collect(old(Model()), now, Threshold(), spared, 0)
      ensures var w := Sweeper(nodeActivity, now, Threshold(), spared);
              && activeNodeIds == Survivors(w, old(activeNodeIds)) && removed == Reports(w, old(activeNodeIds))
              && Turn(Model()) == Survivors(w, Turn(old(Model())))
    {
      removed := [];
      var threshold := Threshold();
      var index := 0;
      ghost var s := Model();
      ghost var w := Sweeper(nodeActivity, now, threshold, spared);
      CollectTurn(s, now, threshold, spared, 0);
      ScanStarts(w, s);
      hide Scanned, Survivors, Reports, Turn, Collect, RemoveAt;
      while index < |activeNodeIds|
        invariant Valid() && index <= |activeNodeIds| && Scanned(w, s, Model(), index, removed)
        decreases |activeNodeIds| - index
      {
        var node := activeNodeIds[index];
        assert node in activeNodeIds;
        ScanStep(w, s, Model(), index, removed);
        if node != spared {
          var activity := nodeActivity[node];
          var silence := if activity.last > 0 && now > activity.last then now - activity.last else 0;
          if silence >= threshold && activity.silent >= SILENT_LIMIT {
            removed := removed + [SilentNodeRemoval(node, silence, activity.silent)];
            RemoveActiveNodeAt(index);
            continue;
          }
        }
        index := index + 1;
      }
      ScanEnds(w, s, Model(), removed);
    }
  }

  // ---------- the scan of a sweep ----------

  /** A scan that began in s is at this index: the nodes before it stay, and the rest is still to be looked at. */
  ghost predicate Scanned(w: Sweeper, s: Scheduler, now: Scheduler, index: nat, removed: seq<SilentNodeRemoval>) {
    && SchedulerOk(s) && SchedulerOk(now) && now.activity == w.activity && index <= |now.active|
    && Collect(now, w.now, w.threshold, w.spared, index) == Collect(s, w.now, w.threshold, w.spared, 0)
    && now.active[..index] + Survivors(w, now.active[index..]) == Survivors(w, s.active)
    && removed + Reports(w, now.active[index..]) == Reports(w, s.active)
  }

  lemma ScanStarts(w: Sweeper, s: Scheduler)
    requires SchedulerOk(s) && s.activity == w.activity
    ensures Scanned(w, s, s, 0, [])
  {
    assert s.active[0..] == s.active;
    hide SchedulerOk, Collect, Survivors, Reports;
  }

  lemma ScanStep(w: Sweeper, s: Scheduler, now: Scheduler, index: nat, removed: seq<SilentNodeRemoval>)
    requires Scanned(w, s, now, index, removed) && index < |now.active|
    ensures if Evicts(w, now.active[index])
            then Scanned(w, s, RemoveAt(now, index), index, removed + [Report(w, now.active[index])])
            else Scanned(w, s, now, index + 1, removed)
  {
    CollectStep(now, w.now, w.threshold, w.spared, index);
    NextSurvives(w, now.active, index);
    assert Evicts(w, now.active[index]) ==> now.active[index] in w.activity;
    hide SchedulerOk, Collect, Survivors, Reports, RemoveAt, Evicts, Report;
  }

  lemma ScanEnds(w: Sweeper, s: Scheduler, now: Scheduler, removed: seq<SilentNodeRemoval>)
    requires Scanned(w, s, now, |now.active|, removed)
    ensures now == Collect(s, w.now, w.threshold, w.spared, 0)
    ensures now.active == Survivors(w, s.active) && removed == Reports(w, s.active)
  {
    NoneLeft(w, now.active);
    NothingToCollect(now, w.now, w.threshold, w.spared);
    hide SchedulerOk, Collect, Survivors, Reports;
  }

  /** What the next node of a scan adds to the survivors and to the reports. */
  lemma NextSurvives(w: Sweeper, nodes: seq<nat>, i: nat)
    requires i < |nodes|
    ensures Evicts(w, nodes[i]) ==> Survivors(w, nodes[i..]) == Survivors(w, nodes[i + 1..])
    ensures !Evicts(w, nodes[i]) ==> nodes[..i] + Survivors(w, nodes[i..]) == nodes[..i + 1] + Survivors(w, nodes[i + 1..])
    ensures Evicts(w, nodes[i]) ==>
              Reports(w, nodes[i..]) == [Report(w, nodes[i])] + Reports(w, nodes[i + 1..])
    ensures !Evicts(w, nodes[i]) ==> Reports(w, nodes[i..]) == Reports(w, nodes[i + 1..])
  {
    hide Evicts;
    assert nodes[i..][1..] == nodes[i + 1..];
  }

  lemma NoneLeft(w: Sweeper, nodes: seq<nat>)
    ensures nodes[..|nodes|] + Survivors(w, nodes[|nodes|..]) == nodes && Reports(w, nodes[|nodes|..]) == []
  {
  }
}
