/** When KCP flushes: `ikcp_update` and `ikcp_check` of src/ikcp.c, with 32-bit clocks. */
module KcpClock {
  import opened KcpWrapping

  const FAR := 10000

  /** The clock fields of the control block. */
  datatype Clock = Clock(updated: bool, tsFlush: nat, interval: nat)

  /** `ikcp_interval` keeps the interval in this range. */
  predicate ClockOk(c: Clock) { c.tsFlush < M && 10 <= c.interval <= 5000 }

  predicate Off(slap: int) { slap >= FAR || slap < -FAR }

  /** The flush time that `ikcp_update` starts from. */
  function Started(c: Clock, current: nat): nat {
    if !c.updated || Off(Diff(current, c.tsFlush)) then current else c.tsFlush
  }

  /** Does `ikcp_update` flush at this time? */
  predicate Flushes(c: Clock, current: nat) { Diff(current, Started(c, current)) >= 0 }

  /** The next flush time. */
  function NextFlush(c: Clock, current: nat): nat {
    var ts := Started(c, current);
    if !Flushes(c, current) then ts
    else
      var next := W(ts + c.interval);
      if Diff(current, next) >= 0 then W(current + c.interval) else next
  }

  /** `ikcp_check` for segments with these resend times: how long to wait. */
  function Wait(c: Clock, current: nat, resendts: seq<nat>): nat {
    if !c.updated || Off(Diff(current, c.tsFlush)) || Diff(current, c.tsFlush) >= 0 || Due(resendts, current) then 0
    else
      var t := Diff(c.tsFlush, current);
      var m := if Soonest(resendts, current) < t then Soonest(resendts, current) else t;
      if m < 0 then 0 else if m >= c.interval then c.interval else m
  }

  predicate Due(resendts: seq<nat>, current: nat) {
    exists i :: 0 <= i < |resendts| && Diff(resendts[i], current) <= 0
  }

  /** The least time until a resend. */
  function Soonest(resendts: seq<nat>, current: nat): (d: int)
    ensures d < HALF
    ensures forall i :: 0 <= i < |resendts| ==> d <= Diff(resendts[i], current)
    ensures d == HALF - 1 || exists i :: 0 <= i < |resendts| && d == Diff(resendts[i], current)
  {
    if resendts == [] then HALF - 1
    else
      var init := resendts[..|resendts| - 1];
      var d, x := Soonest(init, current), Diff(resendts[|resendts| - 1], current);
      assert forall i :: 0 <= i < |init| ==> init[i] == resendts[i];
      if x < d then x else d
  }

  class Timer {
    var updated: bool
    var tsFlush: nat
    const interval: nat

    function Model(): Clock
      reads this
    {
      Clock(updated, tsFlush, interval)
    }

    constructor (interval: nat)
      requires 10 <= interval <= 5000
      ensures ClockOk(Model()) && !updated
    {
      this.interval := interval;
      updated, tsFlush := false, 100;
    }

    /** `ikcp_update`: whether it flushes. */
    method Update(current: nat) returns (flush: bool)
      requires ClockOk(Model()) && current < M
      modifies this
      ensures ClockOk(Model()) && updated
      ensures flush == Flushes(old(Model()), current) && tsFlush == NextFlush(old(Model()), current)
    {
      hide Diff, W;
      DiffSelf(current);
      if !updated {
        updated := true;
        tsFlush := current;
      }
      var slap := Diff(current, tsFlush);
      if slap >= FAR || slap < -FAR {
        tsFlush := current;
        slap := 0;
      }
      if slap >= 0 {
        tsFlush := W(tsFlush + interval);
        if Diff(current, tsFlush) >= 0 {
          tsFlush := W(current + interval);
        }
        return true;
      }
      flush := false;
    }

    /** `ikcp_check` */
    method Check(current: nat, resendts: seq<nat>) returns (at: nat)
      requires ClockOk(Model()) && current < M
      ensures at == W(current + Wait(Model(), current, resendts))
    {
      hide Diff;
      WrapSmall(current);
      var flushAt := tsFlush;
      if !updated { return current; }
      if Diff(current, flushAt) >= FAR || Diff(current, flushAt) < -FAR { flushAt := current; }
      DiffSelf(current);
      if Diff(current, flushAt) >= 0 { return current; }
      var tmFlush, tmPacket := Diff(flushAt, current), HALF - 1;
      DiffOpposite(flushAt, current);
      for i := 0 to |resendts|
        invariant forall j :: 0 <= j < i ==> Diff(resendts[j], current) > 0
        invariant tmPacket == Soonest(resendts[..i], current)
      {
        var diff := Diff(resendts[i], current);
        if diff <= 0 { return current; }
        assert resendts[..i + 1][..i] == resendts[..i];
        if diff < tmPacket { tmPacket := diff; }
      }
      assert resendts[..|resendts|] == resendts;
      var minimal := if tmPacket < tmFlush then tmPacket else tmFlush;
      if minimal >= interval { minimal := interval; }
      at := W(current + minimal);
    }
  }

  lemma WrapSmall(x: nat)
    requires x < M
    ensures W(x) == x
  {}

  lemma DiffSelf(x: nat)
    ensures Diff(x, x) == 0
  {}

  lemma DiffOpposite(x: nat, y: nat)
    requires x < M && y < M && -HALF < Diff(y, x) < 0
    ensures Diff(x, y) == -Diff(y, x)
  {}

  /** Until the time that `ikcp_check` returns, `ikcp_update` never flushes. */
  lemma NoFlushBefore(c: Clock, current: nat, resendts: seq<nat>, d: nat)
    requires ClockOk(c) && current < M && d < Wait(c, current, resendts)
    ensures !Flushes(c, W(current + d))
  {
    hide Soonest;
    var t := Diff(c.tsFlush, current);
    DiffOpposite(c.tsFlush, current);
    assert 0 < t <= FAR && d < t;
    DiffLater(current, c.tsFlush, d);
  }

  lemma DiffLater(x: nat, y: nat, d: nat)
    requires x < M && y < M && 0 < Diff(y, x) <= FAR && d < Diff(y, x)
    ensures Diff(W(x + d), y) == d - Diff(y, x)
  {}

  /** A flush sets the next one at most an interval ahead, and never in the past. */
  lemma FlushAgainSoon(c: Clock, current: nat)
    requires ClockOk(c) && current < M && Flushes(c, current)
    ensures 0 < Diff(NextFlush(c, current), current) <= c.interval
  {
    var ts := Started(c, current);
    var slap := Diff(current, ts);
    DiffSelf(current);
    assert 0 <= slap < FAR && ts < M;
    FlushAhead(ts, current, c.interval);
  }

  lemma FlushAhead(ts: nat, current: nat, interval: nat)
    requires ts < M && current < M && 10 <= interval <= 5000 && 0 <= Diff(current, ts) < FAR
    ensures Diff(current, W(ts + interval)) == Diff(current, ts) - interval
    ensures Diff(W(ts + interval), current) == interval - Diff(current, ts)
    ensures Diff(W(current + interval), current) == interval
  {
    var slap := Diff(current, ts);
    Elapsed(ts, current);
    WrapSmall(current);
    hide Diff, W;
    DiffTrue(ts + slap, ts + interval);
    DiffTrue(ts + interval, ts + slap);
    DiffTrue(current + interval, current);
  }

  /** A flush that is late by less than an interval keeps the rhythm, and only such a flush does; a later
      one starts it anew. */
  lemma KeepsRhythm(c: Clock, current: nat)
    requires ClockOk(c) && current < M && Flushes(c, current)
    ensures var ts := Started(c, current);
            if Diff(current, ts) < c.interval then NextFlush(c, current) == W(ts + c.interval)
            else NextFlush(c, current) == W(current + c.interval)
  {
    DiffSelf(current);
    FlushAhead(Started(c, current), current, c.interval);
  }

  /** The clock after some updates. */
  ghost function Ticked(c: Clock, times: seq<nat>): Clock {
    if times == [] then c
    else
      var b := Ticked(c, times[..|times| - 1]);
      Clock(true, NextFlush(b, times[|times| - 1]), c.interval)
  }

  /** How many of the updates have flushed. */
  ghost function Flushed(c: Clock, times: seq<nat>): nat {
    if times == [] then 0
    else Flushed(c, times[..|times| - 1]) + if Flushes(Ticked(c, times[..|times| - 1]), times[|times| - 1]) then 1 else 0
  }

  /** No update comes an interval late, or so far off that the clock is set anew. */
  ghost predicate Punctual(c: Clock, times: seq<nat>) {
    times != [] ==>
      var b, now := Ticked(c, times[..|times| - 1]), times[|times| - 1];
      Punctual(c, times[..|times| - 1]) && now < M && -FAR <= Diff(now, b.tsFlush) < c.interval
  }

  /** Without such an update the flush times are exactly an interval apart, whenever the updates come. */
  lemma {:induction false} NoDrift(c: Clock, times: seq<nat>)
    requires ClockOk(c) && c.updated && Punctual(c, times)
    ensures var r := Ticked(c, times);
            r.updated && ClockOk(r) && r.interval == c.interval && r.tsFlush == W(c.tsFlush + Flushed(c, times) * c.interval)
  {
    if times == [] {
      WrapSmall(c.tsFlush);
    } else {
      var before, now := times[..|times| - 1], times[|times| - 1];
      NoDrift(c, before);
      UpdateStep(Ticked(c, before), now);
      hide *;
      TickedLast(c, times);
      if Flushes(Ticked(c, before), now) { OneMore(c.tsFlush, Flushed(c, before), c.interval); }
    }
  }

  lemma OneMore(ts: nat, n: nat, interval: nat)
    ensures n * interval >= 0 && (n + 1) * interval >= 0
    ensures W(W(ts + n * interval) + interval) == W(ts + (n + 1) * interval)
  {
    hide W;
    assert (n + 1) * interval == n * interval + interval;
    WrapSum(ts + n * interval, interval);
  }

  lemma TickedLast(c: Clock, times: seq<nat>)
    requires times != []
    ensures var before, now := times[..|times| - 1], times[|times| - 1];
            && Ticked(c, times) == Clock(true, NextFlush(Ticked(c, before), now), c.interval)
            && Flushed(c, times) == Flushed(c, before) + if Flushes(Ticked(c, before), now) then 1 else 0
  {}

  /** An update that is not off moves the flush time by the interval if it flushes, and not otherwise. */
  lemma UpdateStep(b: Clock, now: nat)
    requires ClockOk(b) && b.updated && now < M && -FAR <= Diff(now, b.tsFlush) < b.interval
    ensures NextFlush(b, now) == if Flushes(b, now) then W(b.tsFlush + b.interval) else b.tsFlush
    ensures ClockOk(Clock(true, NextFlush(b, now), b.interval))
  {
    hide Diff, W;
    if Flushes(b, now) { KeepsRhythm(b, now); }
  }

  /** The later time is the earlier one plus the difference. */
  lemma Elapsed(ts: nat, current: nat)
    requires ts < M && current < M && Diff(current, ts) >= 0
    ensures W(ts + Diff(current, ts)) == current
  {}

  // ---------- when the time of the check is a time to flush ----------

  /** Nothing is due and the flush time comes before every resend and within an interval, so that
      `ikcp_check` waits for just that time. */
  predicate WaitsForFlush(c: Clock, current: nat, resendts: seq<nat>) {
    !Due(resendts, current) && Diff(c.tsFlush, current) <= c.interval && Diff(c.tsFlush, current) <= Soonest(resendts, current)
  }

  /** `ikcp_update` flushes at the time that `ikcp_check` returns if and only if it would flush at once or
      that time was not cut short by a segment that is due, a resend or the interval. */
  lemma CheckIsExact(c: Clock, current: nat, resendts: seq<nat>)
    requires ClockOk(c) && current < M
    ensures Flushes(c, W(current + Wait(c, current, resendts)))
            <==> !c.updated || Off(Diff(current, c.tsFlush)) || Diff(current, c.tsFlush) >= 0 || WaitsForFlush(c, current, resendts)
  {
    var t, wait := Diff(c.tsFlush, current), Wait(c, current, resendts);
    WrapSmall(current);
    DiffSelf(current);
    if c.updated && !Off(Diff(current, c.tsFlush)) && Diff(current, c.tsFlush) < 0 {
      DiffOpposite(c.tsFlush, current);
      WaitUntilFlush(c, current, resendts);
      hide Soonest, Due, Wait;
      if wait < t {
        DiffLater(current, c.tsFlush, wait);
      } else {
        Elapsed(current, c.tsFlush);
        DiffSelf(c.tsFlush);
      }
    }
  }

  /** The wait is never longer than until the next flush. */
  lemma WaitUntilFlush(c: Clock, current: nat, resendts: seq<nat>)
    requires ClockOk(c) && current < M && c.updated && -FAR <= Diff(current, c.tsFlush) < 0
    ensures Wait(c, current, resendts) <= Diff(c.tsFlush, current)
    ensures Wait(c, current, resendts) == Diff(c.tsFlush, current) <==> WaitsForFlush(c, current, resendts)
  {
    DiffOpposite(c.tsFlush, current);
    SoonestDue(resendts, current);
    hide Diff, Soonest, Due;
  }

  lemma SoonestDue(resendts: seq<nat>, current: nat)
    ensures Due(resendts, current) <==> Soonest(resendts, current) <= 0
  {
    hide Diff;
  }

  /** The other case is real: a segment that is due makes `ikcp_check` return the current time at once,
      while `ikcp_update` still waits for its own flush time. */
  lemma CheckMayBeEarly()
    ensures var c := Clock(true, 100, 100); Wait(c, 50, [40]) == 0 && !Flushes(c, 50)
  {
    assert Diff([40][0], 50) == -10;
  }
}
