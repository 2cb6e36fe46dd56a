/** The two filters that a grant passes: `filter_grant` of src/control_envelope.cpp and
    `TokenAuthorizationState` of src/token_authorization.cpp. */
module GrantFilters {

  const U64_MAX := 0xffff_ffff_ffff_ffff

  /** A parsed grant; `expires` was computed from the arrival time. */
  datatype Envelope = Envelope(source: nat, target: nat, sequence: nat, session: nat, duration: nat, expires: nat)

  datatype Decision = Accept | InvalidSource | WrongTarget | InvalidSession | RetiredSession
                    | Expired | DuplicateSequence | StaleSequence

  /** The session part that both filters keep. */
  datatype Gate = Gate(hasSession: bool, session: nat, hasLast: bool, last: nat, retired: set<nat>)

  const FRESH_GATE := Gate(false, 0, false, 0, {})

  /** `saturating_add_u64` */
  function SaturatingAdd(lhs: nat, rhs: nat): (r: nat)
    requires lhs <= U64_MAX
    ensures lhs <= r <= U64_MAX
  {
    if lhs > U64_MAX - rhs then U64_MAX else lhs + rhs
  }

  /** The expiry that `parse_control_envelope` gives a grant: it lies in the future exactly when the
      grant has a duration and the clock is not at its end. */
  lemma ExpiryAhead(now: nat, duration: nat)
    requires now <= U64_MAX
    ensures SaturatingAdd(now, duration) > now <==> duration > 0 && now < U64_MAX
    ensures now + duration <= U64_MAX ==> SaturatingAdd(now, duration) == now + duration
  {}

  // ---------- filter_grant ----------

  /** The gate after the session of a grant has been entered. */
  function Entered(g: Gate, session: nat): Gate {
    if !g.hasSession then g.(hasSession := true, session := session, hasLast := false)
    else if g.session != session then
      g.(retired := g.retired + {g.session}, session := session, hasLast := false)
    else g
  }

  predicate IsRetired(g: Gate, session: nat) { g.hasSession && g.session != session && session in g.retired }

  /** `filter_grant`: the decision and the state after it. */
  function Filter(g: Gate, e: Envelope, validSource: bool, local: nat, now: nat): (Decision, Gate) {
    if !validSource || e.source == 0 || e.source == local then (InvalidSource, g)
    else if e.target != local then (WrongTarget, g)
    else if e.session == 0 then (InvalidSession, g)
    else if e.expires <= now then (Expired, g)
    else if IsRetired(g, e.session) then (RetiredSession, g)
    else
      var h := Entered(g, e.session);
      if h.hasLast && e.sequence == h.last then (DuplicateSequence, h)
      else if h.hasLast && e.sequence < h.last then (StaleSequence, h)
      else (Accept, h.(hasLast := true, last := e.sequence))
  }

  // ---------- TokenAuthorizationState ----------

  datatype Authorization = Authorization(gate: Gate, has: bool, expires: nat)

  const FRESH_AUTHORIZATION := Authorization(FRESH_GATE, false, 0)

  /** `apply_event` */
  function ApplyEvent(a: Authorization, e: Envelope, now: nat): (bool, Authorization) {
    if e.expires == 0 || e.expires <= now || e.session == 0 then (false, a)
    else if IsRetired(a.gate, e.session) then (false, a)
    else
      var h := Entered(a.gate, e.session);
      var b := if a.gate.hasSession && a.gate.session != e.session then Authorization(h, false, 0) else a.(gate := h);
      if h.hasLast && e.sequence <= h.last then (false, b)
      else (true, Authorization(h.(hasLast := true, last := e.sequence), true, e.expires))
  }

  /** `is_authorized` */
  predicate Authorized(a: Authorization, now: nat) { a.has && now < a.expires }

  // ---------- as the client wires them ----------

  /** A grant that arrives: what the first filter accepts is handed to the second. */
  datatype Client = Client(filter: Gate, authorization: Authorization)

  const FRESH_CLIENT := Client(FRESH_GATE, FRESH_AUTHORIZATION)

  /** The second filter reads the clock again, so its time may be later. */
  function Handle(c: Client, e: Envelope, validSource: bool, local: nat, now: nat, later: nat): Client {
    var (d, g) := Filter(c.filter, e, validSource, local, now);
    if d != Accept then c.(filter := g)
    else Client(g, ApplyEvent(c.authorization, e, later).1)
  }

  /** From equal gates the second filter accepts what the first one accepts exactly when the grant has
      not expired in between, and then the gates stay equal. */
  lemma FiltersAgree(c: Client, e: Envelope, validSource: bool, local: nat, now: nat, later: nat)
    requires c.filter == c.authorization.gate && now <= later
    requires Filter(c.filter, e, validSource, local, now).0 == Accept
    ensures ApplyEvent(c.authorization, e, later).0 <==> e.expires > later
    ensures var r := Handle(c, e, validSource, local, now, later);
            if e.expires > later then r.filter == r.authorization.gate && r.authorization.expires == e.expires && r.authorization.has
            else r.authorization == c.authorization
  {}

  /** The session part of the second filter stays that of the first when they read the same clock. */
  lemma SameClock(c: Client, e: Envelope, validSource: bool, local: nat, now: nat)
    requires c.filter == c.authorization.gate && GateOk(c.filter)
    ensures var r := Handle(c, e, validSource, local, now, now);
            r.filter == r.authorization.gate && GateOk(r.filter)
  {}

  /** What a gate keeps: a session that has been entered has a last number once it accepts. */
  ghost predicate GateOk(g: Gate) {
    (g.hasSession ==> g.hasLast && g.session !in g.retired) && (!g.hasSession ==> g.retired == {} && !g.hasLast)
  }

  /** With a clock that moves on in between they can part: the first filter remembers a grant that the
      second one has not taken. */
  lemma ClockBetween()
    ensures var e := Envelope(1, 2, 7, 9, 5, 105);
            var r := Handle(FRESH_CLIENT, e, true, 2, 100, 105);
            r.filter != r.authorization.gate && !Authorized(r.authorization, 105)
  {}

  // ---------- runs ----------

  datatype Arrival = Arrival(e: Envelope, validSource: bool, now: nat)

  ghost function Run(local: nat, h: seq<Arrival>): Client {
    if h == [] then FRESH_CLIENT
    else
      var a := h[|h| - 1];
      Handle(Run(local, h[..|h| - 1]), a.e, a.validSource, local, a.now, a.now)
  }

  /** Is the last arrival accepted by both filters? */
  ghost predicate AcceptsLast(local: nat, h: seq<Arrival>)
    requires h != []
  {
    var c, a := Run(local, h[..|h| - 1]), h[|h| - 1];
    Filter(c.filter, a.e, a.validSource, local, a.now).0 == Accept && ApplyEvent(c.authorization, a.e, a.now).0
  }

  /** The grants that were accepted, in order. */
  ghost function Accepted(local: nat, h: seq<Arrival>): seq<Envelope> {
    if h == [] then []
    else Accepted(local, h[..|h| - 1]) + if AcceptsLast(local, h) then [h[|h| - 1].e] else []
  }

  /** Inside a session numbers increase; the gate stands at the last accepted grant, and exactly the
      other sessions of the log are retired. */
  ghost predicate LogOk(g: Gate, log: seq<Envelope>) {
    && GateOk(g)
    && (g.hasSession <==> log != [])
    && (log != [] ==> log[|log| - 1].session == g.session && log[|log| - 1].sequence == g.last)
    && (forall i :: 0 <= i < |log| ==> log[i].session == g.session || log[i].session in g.retired)
    && (forall x :: x in g.retired ==> HasSession(log, x))
    && (forall i :: 0 <= i < |log| && log[i].session == g.session ==> log[i].sequence <= g.last)
    && (forall i, j :: 0 <= i < j < |log| && log[i].session == log[j].session ==> log[i].sequence < log[j].sequence)
    && (forall i, j :: 0 <= i < j < |log| && log[i].session == g.session ==> log[j].session == g.session)
    && (forall i, j, k :: 0 <= i < j < k < |log| && log[i].session == log[k].session ==> log[j].session == log[k].session)
  }

  ghost predicate HasSession(log: seq<Envelope>, session: nat) {
    exists i :: 0 <= i < |log| && log[i].session == session
  }

  lemma HasSessionMore(log: seq<Envelope>, e: Envelope)
    ensures forall x :: HasSession(log + [e], x) <==> HasSession(log, x) || x == e.session
  {
    var r := log + [e];
    assert r[|log|] == e;
    forall x | HasSession(log, x)
      ensures HasSession(r, x)
    {
      var i :| 0 <= i < |log| && log[i].session == x;
      assert r[i].session == x;
    }
    forall x | HasSession(r, x) && x != e.session
      ensures HasSession(log, x)
    {
      var i :| 0 <= i < |r| && r[i].session == x;
      assert log[i].session == x;
    }
  }

  lemma AcceptKeepsLog(g: Gate, log: seq<Envelope>, e: Envelope, validSource: bool, local: nat, now: nat)
    requires LogOk(g, log)
    ensures var (d, h) := Filter(g, e, validSource, local, now);
            LogOk(h, if d == Accept then log + [e] else log)
  {
    var (d, h) := Filter(g, e, validSource, local, now);
    if d == Accept {
      HasSessionMore(log, e);
      AcceptedState(g, e, validSource, local, now);
      hide Filter;
      if g.hasSession && g.session != e.session {
        assert HasSession(log, g.session) by { assert log[|log| - 1].session == g.session; }
      }
      hide HasSession;
      assert forall i :: 0 <= i < |log + [e]| ==> (log + [e])[i] == if i < |log| then log[i] else e;
    }
  }

  /** The state after a grant has been accepted. */
  lemma AcceptedState(g: Gate, e: Envelope, validSource: bool, local: nat, now: nat)
    requires Filter(g, e, validSource, local, now).0 == Accept && GateOk(g)
    ensures var h := Filter(g, e, validSource, local, now).1;
            && h.hasSession && h.session == e.session && h.hasLast && h.last == e.sequence && !IsRetired(g, e.session)
            && h.retired == (if g.hasSession && g.session != e.session then g.retired + {g.session} else g.retired)
            && (g.hasSession && g.session == e.session ==> g.last < e.sequence)
  {}

  /** One arrival. */
  lemma ArrivalAgrees(c: Client, log: seq<Envelope>, a: Arrival, local: nat)
    requires c.filter == c.authorization.gate && LogOk(c.filter, log)
    ensures var r := Handle(c, a.e, a.validSource, local, a.now, a.now);
            var taken := Filter(c.filter, a.e, a.validSource, local, a.now).0 == Accept && ApplyEvent(c.authorization, a.e, a.now).0;
            r.filter == r.authorization.gate && LogOk(r.filter, log + if taken then [a.e] else [])
  {
    AcceptKeepsLog(c.filter, log, a.e, a.validSource, local, a.now);
    SameClock(c, a.e, a.validSource, local, a.now);
    if Filter(c.filter, a.e, a.validSource, local, a.now).0 == Accept {
      FiltersAgree(c, a.e, a.validSource, local, a.now, a.now);
      FilterFuture(c.filter, a.e, a.validSource, local, a.now);
    }
    hide LogOk, Filter, ApplyEvent;
    assert log + [] == log;
  }

  /** Over any history both filters agree, and the accepted grants are in order. */
  lemma {:induction false} RunAgrees(local: nat, h: seq<Arrival>)
    ensures var c := Run(local, h);
            c.filter == c.authorization.gate && LogOk(c.filter, Accepted(local, h))
  {
    if h != [] {
      RunAgrees(local, h[..|h| - 1]);
      hide LogOk, Filter, ApplyEvent, Handle;
      ArrivalAgrees(Run(local, h[..|h| - 1]), Accepted(local, h[..|h| - 1]), h[|h| - 1], local);
    }
  }

  lemma FilterFuture(g: Gate, e: Envelope, validSource: bool, local: nat, now: nat)
    requires Filter(g, e, validSource, local, now).0 == Accept
    ensures e.expires > now && e.target == local
  {}

  /** Each (session, sequence) is accepted at most once, numbers increase inside a session, and a session
      that has been superseded never comes back. */
  lemma AcceptedOnce(local: nat, h: seq<Arrival>, i: nat, j: nat, k: nat)
    requires i < j < |Accepted(local, h)|
    ensures var log := Accepted(local, h);
            && (log[i].session == log[j].session ==> log[i].sequence < log[j].sequence)
            && (j < k < |log| && log[i].session != log[j].session ==> log[k].session != log[i].session)
  {
    RunAgrees(local, h);
    hide Run, Accepted;
  }

  /** A grant for this client, from a valid peer, that has not expired. */
  predicate Live(local: nat, a: Arrival) {
    && a.validSource && a.e.source != 0 && a.e.source != local && a.e.target == local
    && a.e.session != 0 && a.e.expires > a.now
  }

  /** The session is the last one accepted, or has never been accepted. */
  ghost predicate NotSuperseded(log: seq<Envelope>, session: nat) {
    log == [] || log[|log| - 1].session == session || !HasSession(log, session)
  }

  lemma AcceptsExactly(g: Gate, log: seq<Envelope>, a: Arrival, local: nat)
    requires LogOk(g, log)
    ensures Filter(g, a.e, a.validSource, local, a.now).0 == Accept <==>
              Live(local, a) && NotSuperseded(log, a.e.session)
              && forall i :: 0 <= i < |log| && log[i].session == a.e.session ==> log[i].sequence < a.e.sequence
  {
    var e := a.e;
    if log != [] {
      assert log[|log| - 1].session == g.session && log[|log| - 1].sequence == g.last;
      if e.session != g.session { SupersededIsRetired(g, log, e.session); }
    }
  }

  lemma SupersededIsRetired(g: Gate, log: seq<Envelope>, session: nat)
    requires LogOk(g, log) && session != g.session
    ensures session in g.retired <==> HasSession(log, session)
  {}

  /** Whatever has arrived before, a grant is accepted exactly when it is live, its session has not been
      superseded, and its number is above all accepted ones of that session. */
  lemma AcceptedExactly(local: nat, h: seq<Arrival>, a: Arrival)
    ensures Accepted(local, h + [a]) == Accepted(local, h) + (if TakesNext(local, h, a) then [a.e] else [])
  {
    RunAgrees(local, h);
    var c, log := Run(local, h), Accepted(local, h);
    AcceptsExactly(c.filter, log, a, local);
    assert (h + [a])[..|h|] == h;
    if Filter(c.filter, a.e, a.validSource, local, a.now).0 == Accept {
      FiltersAgree(c, a.e, a.validSource, local, a.now, a.now);
    }
    hide Run, LogOk, Filter, ApplyEvent, Live, NotSuperseded;
  }

  ghost predicate TakesNext(local: nat, h: seq<Arrival>, a: Arrival) {
    var log := Accepted(local, h);
    && Live(local, a) && NotSuperseded(log, a.e.session)
    && forall i :: 0 <= i < |log| && log[i].session == a.e.session ==> log[i].sequence < a.e.sequence
  }

  /** The grants of some arrivals. */
  function Envelopes(h: seq<Arrival>): (es: seq<Envelope>)
    ensures |es| == |h| && forall i :: 0 <= i < |es| ==> es[i] == h[i].e
  {
    seq(|h|, i requires 0 <= i < |h| => h[i].e)
  }

  /** Live grants of one session that arrive in the order of their numbers are all accepted. */
  lemma {:induction false} InOrderAccepted(local: nat, h: seq<Arrival>, session: nat)
    requires forall i :: 0 <= i < |h| ==> Live(local, h[i]) && h[i].e.session == session
    requires forall i, j :: 0 <= i < j < |h| ==> h[i].e.sequence < h[j].e.sequence
    ensures Accepted(local, h) == Envelopes(h)
  {
    if h != [] {
      var before, a := h[..|h| - 1], h[|h| - 1];
      InOrderAccepted(local, before, session);
      AcceptedExactly(local, before, a);
      assert before + [a] == h;
      hide Accepted, Live;
      assert Envelopes(h) == Envelopes(before) + [a.e];
      if before != [] { assert Envelopes(before)[|before| - 1].session == session; }
    }
  }

  /** A client is authorised exactly until the expiry of the last grant it has accepted. */
  lemma {:induction false} AuthorizedExactly(local: nat, h: seq<Arrival>, now: nat)
    ensures var log := Accepted(local, h);
            Authorized(Run(local, h).authorization, now) <==> log != [] && now < log[|log| - 1].expires
  {
    AuthorizationIs(local, h);
  }

  lemma {:induction false} AuthorizationIs(local: nat, h: seq<Arrival>)
    ensures var log, a := Accepted(local, h), Run(local, h).authorization;
            a.has == (log != []) && (log != [] ==> a.expires == log[|log| - 1].expires)
  {
    if h != [] {
      var before, a := h[..|h| - 1], h[|h| - 1];
      var c := Run(local, before);
      AuthorizationIs(local, before);
      RunAgrees(local, before);
      if Filter(c.filter, a.e, a.validSource, local, a.now).0 == Accept {
        FiltersAgree(c, a.e, a.validSource, local, a.now, a.now);
        FilterFuture(c.filter, a.e, a.validSource, local, a.now);
      }
      hide Filter, ApplyEvent, LogOk;
    }
  }

  // ---------- the objects ----------

  class GrantFilter {
    var hasSession: bool
    var sessionId: nat
    var hasLastSequence: bool
    var lastSequence: nat
    var retiredSessions: set<nat>

    function Model(): Gate
      reads this
    {
      Gate(hasSession, sessionId, hasLastSequence, lastSequence, retiredSessions)
    }

    constructor ()
      ensures Model() == FRESH_GATE
    {
      hasSession, sessionId, hasLastSequence, lastSequence, retiredSessions := false, 0, false, 0, {};
    }

    /** `filter_grant` */
    method FilterGrant(e: Envelope, validSource: bool, local: nat, now: nat) returns (d: Decision)
      modifies this
      ensures (d, Model()) == Filter(old(Model()), e, validSource, local, now)
    {
      if !validSource || e.source == 0 || e.source == local { return InvalidSource; }
      if e.target != local { return WrongTarget; }
      if e.session == 0 { return InvalidSession; }
      if e.expires <= now { return Expired; }
      if !hasSession {
        hasSession, sessionId, hasLastSequence := true, e.session, false;
      } else if sessionId != e.session {
        if e.session in retiredSessions { return RetiredSession; }
        retiredSessions := retiredSessions + {sessionId};
        sessionId, hasLastSequence := e.session, false;
      }
      if hasLastSequence {
        if e.sequence == lastSequence { return DuplicateSequence; }
        if e.sequence < lastSequence { return StaleSequence; }
      }
      hasLastSequence, lastSequence := true, e.sequence;
      d := Accept;
    }
  }

  class AuthorizationState {
    var hasSession: bool
    var sessionId: nat
    var hasLastSequence: bool
    var lastSequence: nat
    var retiredSessions: set<nat>
    var hasAuthorization: bool
    var expiresAtMs: nat

    function Model(): Authorization
      reads this
    {
      Authorization(Gate(hasSession, sessionId, hasLastSequence, lastSequence, retiredSessions), hasAuthorization, expiresAtMs)
    }

    constructor ()
      ensures Model() == FRESH_AUTHORIZATION
    {
      hasSession, sessionId, hasLastSequence, lastSequence, retiredSessions := false, 0, false, 0, {};
      hasAuthorization, expiresAtMs := false, 0;
    }

    /** `apply_event` */
    method Apply(e: Envelope, now: nat) returns (ok: bool)
      modifies this
      ensures (ok, Model()) == ApplyEvent(old(Model()), e, now)
    {
      if e.expires == 0 || e.expires <= now || e.session == 0 { return false; }
      if !hasSession {
        hasSession, sessionId, hasLastSequence := true, e.session, false;
      } else if sessionId != e.session {
        if e.session in retiredSessions { return false; }
        retiredSessions := retiredSessions + {sessionId};
        sessionId, hasLastSequence := e.session, false;
        hasAuthorization, expiresAtMs := false, 0;
      }
      if hasLastSequence && e.sequence <= lastSequence { return false; }
      hasLastSequence, lastSequence := true, e.sequence;
      expiresAtMs, hasAuthorization := e.expires, true;
      ok := true;
    }

    /** `is_authorized` */
    method IsAuthorized(now: nat) returns (yes: bool)
      ensures yes == Authorized(Model(), now)
    {
      yes := hasAuthorization && now < expiresAtMs;
    }
  }
}
