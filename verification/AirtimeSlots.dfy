/** The grant timing of the server role in src/v6_uplink.cpp: normal round-robin slots and feedback
    windows, and when two clients can be authorised at once. */
module AirtimeSlots {
  import opened GrantFilters

  const IDLE_SLEEP := 10   // kIdleSleepMs

  /** A grant as the server records it. */
  datatype Slot = Slot(node: nat, sequence: nat, time: nat, duration: nat, feedback: bool)

  datatype Config = Config(clients: seq<nat>, duration: nat, guardInterval: nat,
                           enabled: bool, period: nat, feedbackDuration: nat)

  /** `sequence` is the scheduler's counter, from which both kinds of grants take their numbers. */
  datatype Server = Server(nextGrant: nat, active: bool, nextIndex: nat, feedbackNext: nat, nextOpen: nat,
                           sequence: nat, log: seq<Slot>)

  function End(c: Config, slot: Slot): nat { slot.time + slot.duration + c.guardInterval }

  // ---------- the loop ----------

  predicate Opens(s: Server, c: Config, now: nat) { c.enabled && !s.active && now >= s.nextOpen }

  /** `open_feedback_window` */
  function Open(s: Server, now: nat): Server { s.(active := true, nextIndex := 0, feedbackNext := now) }

  /** `close_feedback_window` */
  function Close(s: Server, c: Config, now: nat): Server { s.(active := false, nextOpen := now + c.period) }

  /** `maybe_send_feedback_grant` */
  function Feedback(s: Server, c: Config, now: nat): Server {
    if now < s.feedbackNext then s
    else if s.nextIndex >= |c.clients| then Close(s, c, now)
    else
      s.(log := s.log + [Slot(c.clients[s.nextIndex], s.sequence, now, c.feedbackDuration, true)],
         sequence := s.sequence + 1, nextIndex := s.nextIndex + 1, feedbackNext := now + c.feedbackDuration + c.guardInterval)
  }

  datatype Pick = NoNode | Node(node: nat)

  /** The normal part of the loop; whom the scheduler picks comes in as an argument. */
  function Normal(s: Server, c: Config, now: nat, pick: Pick): Server {
    if now < s.nextGrant then s
    else match pick
      case NoNode => s.(nextGrant := now + IDLE_SLEEP)
      case Node(x) => s.(log := s.log + [Slot(x, s.sequence, now, c.duration, false)],
                         sequence := s.sequence + 1, nextGrant := now + c.duration + c.guardInterval)
  }

  /** One turn of the loop of `run_server`; the clock is read again before the normal part. */
  function Iterate(s: Server, c: Config, now: nat, later: nat, pick: Pick): Server {
    var t := if Opens(s, c, now) then Open(s, now) else s;
    if t.active then Feedback(t, c, now) else Normal(t, c, later, pick)
  }

  // ---------- spacing ----------

  /** Every slot and its guard interval are over before the next one begins. */
  ghost predicate Spaced(c: Config, log: seq<Slot>) {
    forall i, j :: 0 <= i < j < |log| ==> End(c, log[i]) <= log[j].time
  }

  /** All normal slots are over at this time. */
  ghost predicate NormalOver(c: Config, log: seq<Slot>, now: nat) {
    forall i :: 0 <= i < |log| && !log[i].feedback ==> End(c, log[i]) <= now
  }

  /** What holds between turns at clock time `clock`. */
  ghost predicate ServerOk(s: Server, c: Config, clock: nat) {
    && Spaced(c, s.log)
    && (forall i :: 0 <= i < |s.log| ==> s.log[i].time <= clock)
    && NormalOver(c, s.log, s.nextGrant)
    && (forall i :: 0 <= i < |s.log| && s.log[i].feedback ==> End(c, s.log[i]) <= if s.active then s.feedbackNext else clock)
    && (s.active ==> NormalOver(c, s.log, s.feedbackNext))
  }

  /** A window opens into a normal slot that is not over. */
  ghost predicate OpensEarly(s: Server, c: Config, now: nat) {
    Opens(s, c, now) && c.clients != [] && !NormalOver(c, s.log, now)
  }

  lemma SpacedMore(c: Config, log: seq<Slot>, slot: Slot)
    requires Spaced(c, log)
    ensures Spaced(c, log + [slot]) <==> forall i :: 0 <= i < |log| ==> End(c, log[i]) <= slot.time
  {
    var r := log + [slot];
    assert forall i :: 0 <= i < |log| ==> r[i] == log[i];
    if Spaced(c, r) {
      forall i | 0 <= i < |log|
        ensures End(c, log[i]) <= slot.time
      {
        assert End(c, r[i]) <= r[|log|].time;
      }
    }
  }

  lemma FeedbackSpaced(t: Server, c: Config, clock: nat, now: nat)
    requires ServerOk(t, c, clock) && t.active && clock <= now
    ensures ServerOk(Feedback(t, c, now), c, now)
  {
    if now >= t.feedbackNext && t.nextIndex < |c.clients| {
      SpacedMore(c, t.log, Slot(c.clients[t.nextIndex], t.sequence, now, c.feedbackDuration, true));
    }
    hide Spaced;
    assert forall i :: 0 <= i < |t.log| ==> Feedback(t, c, now).log[i] == t.log[i];
  }

  lemma NormalSpaced(t: Server, c: Config, clock: nat, now: nat, pick: Pick)
    requires ServerOk(t, c, clock) && !t.active && clock <= now
    ensures ServerOk(Normal(t, c, now, pick), c, now)
  {
    if now >= t.nextGrant && pick.Node? {
      SpacedMore(c, t.log, Slot(pick.node, t.sequence, now, c.duration, false));
    }
    hide Spaced;
    assert forall i :: 0 <= i < |t.log| ==> Normal(t, c, now, pick).log[i] == t.log[i];
  }

  /** A window that opens when the normal slots are over. */
  lemma OpenSpaced(s: Server, c: Config, clock: nat, now: nat)
    requires ServerOk(s, c, clock) && Opens(s, c, now) && clock <= now && NormalOver(c, s.log, now)
    ensures ServerOk(Open(s, now), c, now)
  {
    hide Spaced;
  }

  /** A window without clients closes at once. */
  lemma OpenEmpty(s: Server, c: Config, clock: nat, now: nat)
    requires ServerOk(s, c, clock) && Opens(s, c, now) && clock <= now && c.clients == []
    ensures ServerOk(Feedback(Open(s, now), c, now), c, now)
  {
    hide Spaced;
  }

  lemma OpenTooEarly(s: Server, c: Config, clock: nat, now: nat)
    requires ServerOk(s, c, clock) && OpensEarly(s, c, now)
    ensures !Spaced(c, Feedback(Open(s, now), c, now).log)
  {
    SpacedMore(c, s.log, Slot(c.clients[0], s.sequence, now, c.feedbackDuration, true));
    hide Spaced;
  }

  lemma Later(s: Server, c: Config, clock: nat, later: nat)
    requires ServerOk(s, c, clock) && clock <= later
    ensures ServerOk(s, c, later)
  {
    hide Spaced;
  }

  /** One turn keeps the slots apart unless a window opens into a normal slot, and then it does not. */
  lemma IterateSpaced(s: Server, c: Config, clock: nat, now: nat, later: nat, pick: Pick)
    requires ServerOk(s, c, clock) && clock <= now <= later
    ensures var r := Iterate(s, c, now, later, pick);
            if OpensEarly(s, c, now) then !Spaced(c, r.log) else ServerOk(r, c, later)
  {
    hide ServerOk, Spaced, NormalOver, Feedback, Normal;
    if OpensEarly(s, c, now) {
      OpenTooEarly(s, c, clock, now);
    } else if Opens(s, c, now) {
      if c.clients == [] {
        OpenEmpty(s, c, clock, now);
      } else {
        OpenSpaced(s, c, clock, now);
        FeedbackSpaced(Open(s, now), c, now, now);
      }
      Later(Feedback(Open(s, now), c, now), c, now, later);
    } else if s.active {
      FeedbackSpaced(s, c, clock, now);
      Later(Feedback(s, c, now), c, now, later);
    } else {
      NormalSpaced(s, c, clock, later, pick);
    }
  }

  // ---------- runs ----------

  /** One turn: the two clock readings and the scheduler's pick. */
  datatype Turn = Turn(now: nat, later: nat, pick: Pick)

  function Start(c: Config, now: nat): Server { Server(now, false, 0, 0, now + c.period, 0, []) }

  function After(c: Config, start: nat, turns: seq<Turn>): Server {
    if turns == [] then Start(c, start)
    else
      var t := turns[|turns| - 1];
      Iterate(After(c, start, turns[..|turns| - 1]), c, t.now, t.later, t.pick)
  }

  function Clock(start: nat, turns: seq<Turn>): nat { if turns == [] then start else turns[|turns| - 1].later }

  /** The clock does not go back. */
  ghost predicate Forward(start: nat, turns: seq<Turn>) {
    turns == [] || (Forward(start, turns[..|turns| - 1])
                    && Clock(start, turns[..|turns| - 1]) <= turns[|turns| - 1].now <= turns[|turns| - 1].later)
  }

  /** Some window opened into a normal slot. */
  ghost predicate SomeEarly(c: Config, start: nat, turns: seq<Turn>) {
    turns != [] && (SomeEarly(c, start, turns[..|turns| - 1])
                    || OpensEarly(After(c, start, turns[..|turns| - 1]), c, turns[|turns| - 1].now))
  }

  lemma LogGrows(s: Server, c: Config, now: nat, later: nat, pick: Pick)
    ensures s.log <= Iterate(s, c, now, later, pick).log
  {}

  lemma SpacedPrefix(c: Config, a: seq<Slot>, b: seq<Slot>)
    requires a <= b && Spaced(c, b)
    ensures Spaced(c, a)
  {
    assert forall i :: 0 <= i < |a| ==> a[i] == b[i];
  }

  lemma {:induction false} RunSpaced(c: Config, start: nat, turns: seq<Turn>)
    requires Forward(start, turns)
    ensures if SomeEarly(c, start, turns) then !Spaced(c, After(c, start, turns).log)
            else ServerOk(After(c, start, turns), c, Clock(start, turns))
  {
    if turns != [] {
      var before, t := turns[..|turns| - 1], turns[|turns| - 1];
      var s := After(c, start, before);
      RunSpaced(c, start, before);
      LogGrows(s, c, t.now, t.later, t.pick);
      hide ServerOk, Iterate, OpensEarly, Spaced;
      if SomeEarly(c, start, before) {
        if Spaced(c, After(c, start, turns).log) { SpacedPrefix(c, s.log, After(c, start, turns).log); }
      } else {
        IterateSpaced(s, c, Clock(start, before), t.now, t.later, t.pick);
      }
    }
  }

  /** Over any run the slots are kept apart if and only if no feedback window opened while a normal slot
      was not over. */
  lemma SlotsApartExactly(c: Config, start: nat, turns: seq<Turn>)
    requires Forward(start, turns)
    ensures Spaced(c, After(c, start, turns).log) <==> !SomeEarly(c, start, turns)
  {
    RunSpaced(c, start, turns);
  }

  // ---------- slots of different clients ----------

  /** The slots of different clients do not overlap, guard intervals included. */
  ghost predicate Apart(c: Config, log: seq<Slot>) {
    forall i, j :: 0 <= i < j < |log| && log[i].node != log[j].node ==> End(c, log[i]) <= log[j].time
  }

  /** A normal slot of a client other than z is not over. */
  ghost predicate BusyWithOther(c: Config, log: seq<Slot>, z: nat, now: nat) {
    exists i :: 0 <= i < |log| && !log[i].feedback && log[i].node != z && now < End(c, log[i])
  }

  /** `maybe_send_feedback_grant` is about to send. */
  predicate SendsFeedback(t: Server, c: Config, now: nat) {
    t.active && now >= t.feedbackNext && t.nextIndex < |c.clients|
  }

  /** The turn sends a feedback grant to a client while a normal slot of another client is not over. */
  ghost predicate Intrudes(s: Server, c: Config, now: nat) {
    var t := if Opens(s, c, now) then Open(s, now) else s;
    SendsFeedback(t, c, now) && BusyWithOther(c, t.log, c.clients[t.nextIndex], now)
  }

  /** What holds between turns as long as there has been no intrusion. */
  ghost predicate ApartOk(s: Server, c: Config, clock: nat) {
    && Apart(c, s.log)
    && (forall i :: 0 <= i < |s.log| ==> s.log[i].time <= clock)
    && NormalOver(c, s.log, s.nextGrant)
    && (forall i :: 0 <= i < |s.log| && s.log[i].feedback ==> End(c, s.log[i]) <= if s.active then s.feedbackNext else clock)
  }

  lemma ApartMore(c: Config, log: seq<Slot>, slot: Slot)
    requires Apart(c, log)
    ensures Apart(c, log + [slot]) <==>
              forall i :: 0 <= i < |log| && log[i].node != slot.node ==> End(c, log[i]) <= slot.time
  {
    var r := log + [slot];
    assert forall i :: 0 <= i < |log| ==> r[i] == log[i];
    if Apart(c, r) {
      forall i | 0 <= i < |log| && log[i].node != slot.node
        ensures End(c, log[i]) <= slot.time
      {
        assert End(c, r[i]) <= r[|log|].time;
      }
    }
  }

  lemma FeedbackApart(t: Server, c: Config, clock: nat, now: nat)
    requires ApartOk(t, c, clock) && t.active && clock <= now
    ensures var r := Feedback(t, c, now);
            if SendsFeedback(t, c, now) && BusyWithOther(c, t.log, c.clients[t.nextIndex], now)
            then !Apart(c, r.log) else ApartOk(r, c, now)
  {
    if SendsFeedback(t, c, now) {
      ApartMore(c, t.log, Slot(c.clients[t.nextIndex], t.sequence, now, c.feedbackDuration, true));
    }
    hide Apart;
    assert forall i :: 0 <= i < |t.log| ==> Feedback(t, c, now).log[i] == t.log[i];
  }

  lemma NormalApart(t: Server, c: Config, clock: nat, now: nat, pick: Pick)
    requires ApartOk(t, c, clock) && !t.active && clock <= now
    ensures ApartOk(Normal(t, c, now, pick), c, now)
  {
    if now >= t.nextGrant && pick.Node? {
      ApartMore(c, t.log, Slot(pick.node, t.sequence, now, c.duration, false));
    }
    hide Apart;
    assert forall i :: 0 <= i < |t.log| ==> Normal(t, c, now, pick).log[i] == t.log[i];
  }

  lemma OpenApart(s: Server, c: Config, clock: nat, now: nat)
    requires ApartOk(s, c, clock) && Opens(s, c, now) && clock <= now
    ensures ApartOk(Open(s, now), c, now)
  {
    hide Apart;
  }

  lemma LaterApart(s: Server, c: Config, clock: nat, later: nat)
    requires ApartOk(s, c, clock) && clock <= later
    ensures ApartOk(s, c, later)
  {
    hide Apart;
  }

  /** One turn keeps the slots of different clients apart exactly unless it intrudes. */
  lemma IterateApart(s: Server, c: Config, clock: nat, now: nat, later: nat, pick: Pick)
    requires ApartOk(s, c, clock) && clock <= now <= later
    ensures var r := Iterate(s, c, now, later, pick);
            if Intrudes(s, c, now) then !Apart(c, r.log) else ApartOk(r, c, later)
  {
    hide ApartOk, Apart, BusyWithOther, Feedback, Normal;
    var t := if Opens(s, c, now) then Open(s, now) else s;
    if t.active {
      if Opens(s, c, now) { OpenApart(s, c, clock, now); } else { LaterApart(s, c, clock, now); }
      FeedbackApart(t, c, now, now);
      if !Intrudes(s, c, now) { LaterApart(Feedback(t, c, now), c, now, later); }
    } else {
      NormalApart(s, c, clock, later, pick);
    }
  }

  /** Some turn intruded. */
  ghost predicate SomeIntrusion(c: Config, start: nat, turns: seq<Turn>) {
    turns != [] && (SomeIntrusion(c, start, turns[..|turns| - 1])
                    || Intrudes(After(c, start, turns[..|turns| - 1]), c, turns[|turns| - 1].now))
  }

  lemma ApartPrefix(c: Config, a: seq<Slot>, b: seq<Slot>)
    requires a <= b && Apart(c, b)
    ensures Apart(c, a)
  {
    assert forall i :: 0 <= i < |a| ==> a[i] == b[i];
  }

  lemma {:induction false} RunApart(c: Config, start: nat, turns: seq<Turn>)
    requires Forward(start, turns)
    ensures if SomeIntrusion(c, start, turns) then !Apart(c, After(c, start, turns).log)
            else ApartOk(After(c, start, turns), c, Clock(start, turns))
  {
    if turns != [] {
      var before, t := turns[..|turns| - 1], turns[|turns| - 1];
      var s := After(c, start, before);
      RunApart(c, start, before);
      LogGrows(s, c, t.now, t.later, t.pick);
      hide ApartOk, Iterate, Intrudes, Apart;
      if SomeIntrusion(c, start, before) {
        if Apart(c, After(c, start, turns).log) { ApartPrefix(c, s.log, After(c, start, turns).log); }
      } else {
        IterateApart(s, c, Clock(start, before), t.now, t.later, t.pick);
      }
    }
  }

  // ---------- the log of any run ----------

  /** Both kinds of durations that occur are positive, as the option parser demands. */
  predicate Positive(c: Config) { c.duration > 0 && (c.enabled ==> c.feedbackDuration > 0) }

  /** Slots are numbered in the order in which they are granted. */
  ghost predicate Numbered(s: Server, c: Config, clock: nat) {
    && s.sequence == |s.log| && (s.active ==> c.enabled)
    && (forall i :: 0 <= i < |s.log| ==> s.log[i].sequence == i && s.log[i].time <= clock)
    && (forall i, j :: 0 <= i < j < |s.log| ==> s.log[i].time <= s.log[j].time)
    && (forall i :: 0 <= i < |s.log| ==> s.log[i].duration == if s.log[i].feedback then c.feedbackDuration else c.duration)
    && (Positive(c) ==> forall i :: 0 <= i < |s.log| ==> s.log[i].duration > 0)
  }

  lemma IterateNumbered(s: Server, c: Config, clock: nat, now: nat, later: nat, pick: Pick)
    requires Numbered(s, c, clock) && clock <= now <= later
    ensures Numbered(Iterate(s, c, now, later, pick), c, later)
  {
    var r, t := Iterate(s, c, now, later, pick), if Opens(s, c, now) then Open(s, now) else s;
    assert Numbered(t, c, clock);
    hide Numbered;
    if t.active { FeedbackNumbered(t, c, clock, now, later); } else { NormalNumbered(t, c, clock, later, pick); }
  }

  lemma FeedbackNumbered(t: Server, c: Config, clock: nat, now: nat, later: nat)
    requires Numbered(t, c, clock) && clock <= now <= later && t.active
    ensures Numbered(Feedback(t, c, now), c, later)
  {
    var r := Feedback(t, c, now);
    assert forall i :: 0 <= i < |t.log| ==> r.log[i] == t.log[i];
  }

  lemma NormalNumbered(t: Server, c: Config, clock: nat, later: nat, pick: Pick)
    requires Numbered(t, c, clock) && clock <= later && !t.active
    ensures Numbered(Normal(t, c, later, pick), c, later)
  {
    var r := Normal(t, c, later, pick);
    assert forall i :: 0 <= i < |t.log| ==> r.log[i] == t.log[i];
  }

  /** Over any run normal and feedback grants share one sequence: the i-th grant has number i. */
  lemma {:induction false} RunNumbered(c: Config, start: nat, turns: seq<Turn>)
    requires Forward(start, turns)
    ensures Numbered(After(c, start, turns), c, Clock(start, turns))
  {
    if turns != [] {
      var before, t := turns[..|turns| - 1], turns[|turns| - 1];
      RunNumbered(c, start, before);
      hide Numbered, Iterate;
      IterateNumbered(After(c, start, before), c, Clock(start, before), t.now, t.later, t.pick);
    }
  }

  // ---------- feedback windows ----------

  /** A window has closed in this turn, perhaps the one that opened in it. */
  ghost predicate Closes(s: Server, r: Server, c: Config, now: nat) { (s.active || Opens(s, c, now)) && !r.active }

  /** When the last window closed; before the first it is the start. */
  ghost function LastClose(c: Config, start: nat, turns: seq<Turn>): nat {
    if turns == [] then start
    else
      var before, t := turns[..|turns| - 1], turns[|turns| - 1];
      if Closes(After(c, start, before), After(c, start, turns), c, t.now) then t.now else LastClose(c, start, before)
  }

  lemma {:induction false} NextOpenIs(c: Config, start: nat, turns: seq<Turn>)
    ensures var s := After(c, start, turns); !s.active ==> s.nextOpen == LastClose(c, start, turns) + c.period
  {
    if turns != [] { NextOpenIs(c, start, turns[..|turns| - 1]); }
  }

  /** Between windows lies at least the period: a turn opens a window if and only if none is open and that
      much time has passed since the last one closed. */
  lemma WindowsApart(c: Config, start: nat, turns: seq<Turn>, t: Turn)
    ensures var s, r := After(c, start, turns), After(c, start, turns + [t]);
            c.clients != [] ==>
              ((!s.active && r.active) <==> c.enabled && !s.active && t.now >= LastClose(c, start, turns) + c.period)
  {
    NextOpenIs(c, start, turns);
    assert (turns + [t])[..|turns|] == turns;
    hide LastClose;
  }

  /** These grants go to the first clients of the list, once each and in order, as feedback. */
  ghost predicate ToFirst(tail: seq<Slot>, c: Config) {
    |tail| <= |c.clients| && forall j :: 0 <= j < |tail| ==> tail[j].feedback && tail[j].node == c.clients[j]
  }

  /** Such are the last grants while a window is open. */
  ghost predicate Serving(s: Server, c: Config) {
    s.nextIndex <= |s.log| && ToFirst(s.log[|s.log| - s.nextIndex..], c)
  }

  lemma {:induction false} RunServes(c: Config, start: nat, turns: seq<Turn>)
    ensures After(c, start, turns).active ==> Serving(After(c, start, turns), c)
  {
    if turns != [] {
      RunServes(c, start, turns[..|turns| - 1]);
      ServesStep(After(c, start, turns[..|turns| - 1]), c, turns[|turns| - 1]);
      hide Iterate;
    }
  }

  lemma ServesStep(s: Server, c: Config, t: Turn)
    requires s.active ==> Serving(s, c)
    ensures var r := Iterate(s, c, t.now, t.later, t.pick);
            && (r.active ==> Serving(r, c))
            && (Closes(s, r, c, t.now) ==> r.log == s.log && r.nextIndex == |c.clients| && Serving(r, c))
  {
    var u := if Opens(s, c, t.now) then Open(s, t.now) else s;
    if u.active {
      assert Serving(u, c);
      FeedbackServes(u, c, t.now);
    }
  }

  lemma FeedbackServes(u: Server, c: Config, now: nat)
    requires u.active && Serving(u, c)
    ensures var r := Feedback(u, c, now);
            if r.active then Serving(r, c) else r.log == u.log && r.nextIndex == |c.clients| && Serving(r, c)
  {
    var r := Feedback(u, c, now);
    if r.log != u.log {
      var slot := r.log[|u.log|];
      assert r.log == u.log + [slot];
      assert r.log[|r.log| - r.nextIndex..] == u.log[|u.log| - u.nextIndex..] + [slot];
    }
  }

  /** A window that closes has granted every known client exactly once, in the order of the list, and has
      let no normal grant in between. */
  lemma WindowServesAll(c: Config, start: nat, turns: seq<Turn>, t: Turn)
    requires Closes(After(c, start, turns), After(c, start, turns + [t]), c, t.now)
    ensures var log, n := After(c, start, turns + [t]).log, |c.clients|;
            n <= |log| && ToFirst(log[|log| - n..], c)
  {
    assert (turns + [t])[..|turns|] == turns;
    RunServes(c, start, turns);
    ServesStep(After(c, start, turns), c, t);
    hide Iterate;
  }

  // ---------- no time is wasted ----------

  /** The next normal slot begins at the latest when a normal slot ends, or soon after now; the next
      feedback grant when a feedback slot ends, or now. */
  ghost predicate Prompt(s: Server, c: Config, clock: nat) {
    && (s.nextGrant <= clock + IDLE_SLEEP || exists i :: 0 <= i < |s.log| && !s.log[i].feedback && s.nextGrant == End(c, s.log[i]))
    && (s.active ==> s.feedbackNext <= clock || exists i :: 0 <= i < |s.log| && s.log[i].feedback && s.feedbackNext == End(c, s.log[i]))
  }

  lemma PromptMore(s: Server, r: Server, c: Config, clock: nat, later: nat)
    requires Prompt(s, c, clock) && clock <= later && s.log <= r.log
    requires r.nextGrant == s.nextGrant || r.nextGrant <= later + IDLE_SLEEP
             || (|r.log| > 0 && !r.log[|r.log| - 1].feedback && r.nextGrant == End(c, r.log[|r.log| - 1]))
    requires r.active ==> (s.active && r.feedbackNext == s.feedbackNext) || r.feedbackNext <= later
                          || (|r.log| > 0 && r.log[|r.log| - 1].feedback && r.feedbackNext == End(c, r.log[|r.log| - 1]))
    ensures Prompt(r, c, later)
  {
    assert forall i :: 0 <= i < |s.log| ==> r.log[i] == s.log[i];
  }

  lemma {:induction false} RunPrompt(c: Config, start: nat, turns: seq<Turn>)
    requires Forward(start, turns)
    ensures Prompt(After(c, start, turns), c, Clock(start, turns))
  {
    if turns != [] {
      var before, t := turns[..|turns| - 1], turns[|turns| - 1];
      RunPrompt(c, start, before);
      hide Prompt;
      PromptMore(After(c, start, before), After(c, start, turns), c, Clock(start, before), t.later);
    }
  }

  /** Outside windows a picked node is granted as soon as the normal slots are over, or an idle wait is. */
  lemma GrantedPromptly(c: Config, start: nat, turns: seq<Turn>, t: Turn)
    requires Forward(start, turns + [t]) && t.pick.Node?
    requires var s := After(c, start, turns); !s.active && !Opens(s, c, t.now) && NormalOver(c, s.log, t.later)
    requires t.later >= Clock(start, turns) + IDLE_SLEEP
    ensures var s := After(c, start, turns);
            After(c, start, turns + [t]).log == s.log + [Slot(t.pick.node, s.sequence, t.later, c.duration, false)]
  {
    assert (turns + [t])[..|turns|] == turns;
    RunPrompt(c, start, turns);
  }

  /** In a window the next client is granted, or the window closes, as soon as the feedback slots are over. */
  lemma WindowGoesOn(c: Config, start: nat, turns: seq<Turn>, t: Turn)
    requires Forward(start, turns + [t])
    requires var s := After(c, start, turns);
             s.active && forall i :: 0 <= i < |s.log| && s.log[i].feedback ==> End(c, s.log[i]) <= t.now
    ensures var s, r := After(c, start, turns), After(c, start, turns + [t]);
            if s.nextIndex < |c.clients| then r.log == s.log + [Slot(c.clients[s.nextIndex], s.sequence, t.now, c.feedbackDuration, true)]
            else !r.active
  {
    assert (turns + [t])[..|turns|] == turns;
    RunPrompt(c, start, turns);
  }

  // ---------- the object ----------

  /** The grant-timing state of `run_server` with its `FeedbackWindowState`. */
  class AirtimeServer {
    const config: Config
    var nextGrantAtMs: nat
    var active: bool
    var nextClientIndex: nat
    var feedbackNextGrantAtMs: nat
    var nextOpenAtMs: nat
    var sequence: nat               // of the scheduler
    var log: seq<Slot>

    function Model(): Server
      reads this
    {
      Server(nextGrantAtMs, active, nextClientIndex, feedbackNextGrantAtMs, nextOpenAtMs, sequence, log)
    }

    constructor (config: Config, now: nat)
      ensures Model() == Start(config, now) && this.config == config && ApartOk(Model(), config, now)
    {
      this.config := config;
      nextGrantAtMs, active, nextClientIndex, feedbackNextGrantAtMs := now, false, 0, 0;
      nextOpenAtMs, sequence, log := now + config.period, 0, [];
    }

    method OpenFeedbackWindow(now: nat)
      modifies this
      ensures Model() == Open(old(Model()), now)
    {
      active, nextClientIndex, feedbackNextGrantAtMs := true, 0, now;
    }

    method CloseFeedbackWindow(now: nat)
      modifies this
      ensures Model() == Close(old(Model()), config, now)
    {
      active, nextOpenAtMs := false, now + config.period;
    }

    /** `allocate_sequence` */
    method AllocateSequence() returns (number: nat)
      modifies this`sequence
      ensures number == old(sequence) && sequence == old(sequence) + 1
    {
      number := sequence;
      sequence := sequence + 1;
    }

    /** `maybe_send_feedback_grant` */
    method MaybeSendFeedbackGrant(now: nat)
      requires active
      modifies this
      ensures Model() == Feedback(old(Model()), config, now)
    {
      if now < feedbackNextGrantAtMs {
        return;
      }
      if nextClientIndex >= |config.clients| {
        CloseFeedbackWindow(now);
        return;
      }
      var number := AllocateSequence();
      log := log + [Slot(config.clients[nextClientIndex], number, now, config.feedbackDuration, true)];
      nextClientIndex := nextClientIndex + 1;
      feedbackNextGrantAtMs := now + config.feedbackDuration + config.guardInterval;
    }

    /** One turn of the loop: it keeps the slots of different clients apart exactly unless it intrudes. */
    method TurnOnce(now: nat, later: nat, pick: Pick, ghost clock: nat)
      requires ApartOk(Model(), config, clock) && clock <= now <= later
      modifies this
      ensures Model() == Iterate(old(Model()), config, now, later, pick)
      ensures if Intrudes(old(Model()), config, now) then !Apart(config, log) else ApartOk(Model(), config, later)
    {
      IterateApart(Model(), config, clock, now, later, pick);
      hide ApartOk, Intrudes, Apart;
      if config.enabled && !active && now >= nextOpenAtMs {
        OpenFeedbackWindow(now);
      }
      if active {
        MaybeSendFeedbackGrant(now);
        return;
      }
      if later < nextGrantAtMs {
        return;
      }
      match pick
      case NoNode =>
        nextGrantAtMs := later + IDLE_SLEEP;
      case Node(x) =>
        var number := AllocateSequence();
        log := log + [Slot(x, number, later, config.duration, false)];
        nextGrantAtMs := later + config.duration + config.guardInterval;
    }
  }

  // ---------- the clients ----------

  /** The arrival carries slot i, within the guard interval of the time the server recorded. */
  ghost predicate Carries(c: Config, log: seq<Slot>, a: Arrival, i: nat) {
    && i < |log| && log[i].node == a.e.target && log[i].duration == a.e.duration && log[i].sequence == a.e.sequence
    && log[i].time <= a.now <= log[i].time + c.guardInterval && a.e.expires == a.now + a.e.duration
  }

  ghost predicate Timely(c: Config, log: seq<Slot>, a: Arrival) { exists i :: Carries(c, log, a, i) }

  /** A client is authorised only by a grant for it that has arrived and has not expired. */
  lemma {:induction false} AuthorizedBy(local: nat, h: seq<Arrival>, now: nat)
    requires Authorized(Run(local, h).authorization, now)
    ensures exists i :: 0 <= i < |h| && h[i].e.target == local && h[i].e.expires == Run(local, h).authorization.expires
  {
    if h != [] {
      var before, a := h[..|h| - 1], h[|h| - 1];
      var c := Run(local, before);
      var (d, g) := Filter(c.filter, a.e, a.validSource, local, a.now);
      if d == Accept { FilterFuture(c.filter, a.e, a.validSource, local, a.now); }
      if d == Accept && ApplyEvent(c.authorization, a.e, a.now).0 {
        assert h[|h| - 1].e.expires == Run(local, h).authorization.expires;
      } else {
        AuthorizedBy(local, before, now);
        var i :| 0 <= i < |before| && before[i].e.target == local && before[i].e.expires == c.authorization.expires;
        assert h[i] == before[i];
      }
    }
  }

  /** What the history of a client amounts to at time `now`. */
  ghost predicate Heard(c: Config, log: seq<Slot>, h: seq<Arrival>, now: nat) {
    forall i :: 0 <= i < |h| ==> Timely(c, log, h[i]) && h[i].now <= now
  }

  /** The slot in which an authorised client is. */
  lemma InSlot(c: Config, log: seq<Slot>, local: nat, h: seq<Arrival>, now: nat) returns (i: nat)
    requires Heard(c, log, h, now) && Authorized(Run(local, h).authorization, now)
    ensures i < |log| && log[i].node == local && log[i].time <= now < End(c, log[i])
  {
    AuthorizedBy(local, h, now);
    hide Run;
    var k :| 0 <= k < |h| && h[k].e.target == local && h[k].e.expires == Run(local, h).authorization.expires;
    assert Timely(c, log, h[k]);
    i :| Carries(c, log, h[k], i);
  }

  /** Whatever timely grants have been heard, no two clients are authorised at once. */
  ghost predicate Exclusive(c: Config, log: seq<Slot>) {
    forall x, h, y, g, now :: x != y && Heard(c, log, h, now) && Heard(c, log, g, now) ==>
      !(Authorized(Run(x, h).authorization, now) && Authorized(Run(y, g).authorization, now))
  }

  /** If the slots of different clients are apart, authorisation is exclusive. */
  lemma ApartExclusive(c: Config, log: seq<Slot>)
    requires Apart(c, log)
    ensures Exclusive(c, log)
  {
    hide Run, Heard, Authorized;
    forall x, h, y, g, now | x != y && Heard(c, log, h, now) && Heard(c, log, g, now)
      ensures !(Authorized(Run(x, h).authorization, now) && Authorized(Run(y, g).authorization, now))
    {
      if Authorized(Run(x, h).authorization, now) && Authorized(Run(y, g).authorization, now) {
        var i := InSlot(c, log, x, h, now);
        var j := InSlot(c, log, y, g, now);
      }
    }
  }

  /** Two grants to different clients that are closer can reach their clients, each in time, so that both
      are authorised. */
  lemma TooClose(c: Config, log: seq<Slot>, i: nat, j: nat)
    requires i < j < |log| && log[i].node != log[j].node && log[i].time <= log[j].time < End(c, log[i])
    requires log[i].duration > 0 && log[j].duration > 0
    ensures !Exclusive(c, log)
  {
    var a, b := log[i], log[j];
    var source := a.node + b.node + 1;
    var at := a.time + c.guardInterval;
    var now := if at < b.time then b.time else at;
    var h := OneGrant(source, a, at);
    var g := OneGrant(source, b, now);
    assert Carries(c, log, h[0], i) && Carries(c, log, g[0], j);
    assert Timely(c, log, h[0]) && Timely(c, log, g[0]);
    hide Run, Authorized, Timely;
    assert Heard(c, log, h, now) && Heard(c, log, g, now);
    OneGrantAuthorizes(source, a, at, now);
    OneGrantAuthorizes(source, b, now, now);
  }

  /** The history of a client that has heard just this slot's grant. */
  function OneGrant(source: nat, slot: Slot, at: nat): seq<Arrival> {
    [Arrival(Envelope(source, slot.node, slot.sequence, 1, slot.duration, at + slot.duration), true, at)]
  }

  lemma OneGrantAuthorizes(source: nat, slot: Slot, at: nat, now: nat)
    requires source != 0 && source != slot.node && slot.duration > 0 && at <= now < at + slot.duration
    ensures Authorized(Run(slot.node, OneGrant(source, slot, at)).authorization, now)
  {
    var h := OneGrant(source, slot, at);
    assert h[..|h| - 1] == [] && Run(slot.node, []) == FRESH_CLIENT;
  }

  // ---------- exclusivity over runs of the server ----------

  /** Over any run authorisation is exclusive, whatever timely grants the clients hear, if and only if no
      turn sent a feedback grant to a client while a normal slot of another client was not over. */
  lemma ExclusiveExactly(c: Config, start: nat, turns: seq<Turn>)
    requires Forward(start, turns) && Positive(c)
    ensures Exclusive(c, After(c, start, turns).log) <==> !SomeIntrusion(c, start, turns)
  {
    var log := After(c, start, turns).log;
    RunApart(c, start, turns);
    RunNumbered(c, start, turns);
    hide After, Forward, Exclusive, SomeIntrusion;
    if SomeIntrusion(c, start, turns) {
      var i, j :| 0 <= i < j < |log| && log[i].node != log[j].node && !(End(c, log[i]) <= log[j].time);
      TooClose(c, log, i, j);
    } else {
      ApartExclusive(c, log);
    }
  }

  /** A run in which every window waited for the normal slots never has two clients authorised at once. */
  lemma PatientWindowsExclusive(c: Config, start: nat, turns: seq<Turn>,
                                x: nat, h: seq<Arrival>, y: nat, g: seq<Arrival>, now: nat)
    requires Forward(start, turns) && !SomeEarly(c, start, turns) && x != y
    requires Heard(c, After(c, start, turns).log, h, now) && Heard(c, After(c, start, turns).log, g, now)
    ensures !(Authorized(Run(x, h).authorization, now) && Authorized(Run(y, g).authorization, now))
  {
    RunSpaced(c, start, turns);
    hide After, Forward, SomeEarly, Heard, Run, Authorized;
    ApartExclusive(c, After(c, start, turns).log);
  }

  /** The other case is real: with a window that opens 60 ms into a slot of 100 ms, the clients 1 and 2 can
      both be authorised. */
  lemma TwoAtOnce()
    ensures var c := Config([2, 1], 100, 5, true, 50, 20);
            var turns := [Turn(0, 0, Node(1)), Turn(60, 60, NoNode)];
            Forward(0, turns) && Positive(c) && SomeIntrusion(c, 0, turns) && !Exclusive(c, After(c, 0, turns).log)
  {
    var c := Config([2, 1], 100, 5, true, 50, 20);
    var t0, t1 := Turn(0, 0, Node(1)), Turn(60, 60, NoNode);
    var one, turns := [t0], [t0, t1];
    assert one[..|one| - 1] == [] && turns[..|turns| - 1] == one && After(c, 0, []) == Start(c, 0);
    var s := After(c, 0, one);
    assert s == Iterate(Start(c, 0), c, t0.now, t0.later, t0.pick);
    assert s.log == [Slot(1, 0, 0, 100, false)] && End(c, s.log[0]) == 105;
    assert BusyWithOther(c, s.log, 2, 60);
    assert Forward(0, []) && Clock(0, []) == 0 && Clock(0, one) == 0;
    assert Forward(0, one) && Forward(0, turns);
    ExclusiveExactly(c, 0, turns);
  }

  /** Grants of one session that arrive in the order in which the server sent them are never rejected as
      long as they are live: the clients' filters and the shared sequence fit together. */
  lemma OrderedGrantsAccepted(c: Config, start: nat, turns: seq<Turn>, local: nat, h: seq<Arrival>, slots: seq<nat>, session: nat)
    requires Forward(start, turns) && |slots| == |h|
    requires forall i :: 0 <= i < |h| ==> Live(local, h[i]) && h[i].e.session == session
    requires forall i :: 0 <= i < |h| ==> Carries(c, After(c, start, turns).log, h[i], slots[i])
    requires forall i, j :: 0 <= i < j < |slots| ==> slots[i] < slots[j]
    ensures Accepted(local, h) == Envelopes(h)
  {
    RunNumbered(c, start, turns);
    hide After, Forward, Live;
    assert forall i :: 0 <= i < |h| ==> h[i].e.sequence == slots[i];
    InOrderAccepted(local, h, session);
  }
}
