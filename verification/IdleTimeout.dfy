/** The debounced idle timer (backend/internal/auth/middleware.go), with the reading, the
    touch and the lazy revoke of a request as separate steps. */
module IdleTimeout {
  import opened Wrappers
  import opened Clock
  import opened Sessions
  import opened SessionSystem
  import opened SessionLifecycle

  /** The step lets a touch land (or fail). */
  predicate EndsTouch(s: Sys, e: Event)
    requires Enabled(s, e)
  {
    e.Continue? && s.pending[e.req].phase == Touching
  }

  /** No touch of the run fails. */
  ghost predicate TouchesSucceed(clock: Time, es: seq<Event>) {
    forall k | 0 <= k < |es| ::
      var s := Run(Start(clock), es[..k]); Enabled(s, es[k]) && EndsTouch(s, es[k]) ==> es[k].ok
  }

  /** No touch of the run takes longer than `delay` from its reading. */
  ghost predicate TouchesWithin(clock: Time, es: seq<Event>, delay: nat) {
    forall k | 0 <= k < |es| ::
      var s := Run(Start(clock), es[..k]);
      Enabled(s, es[k]) && EndsTouch(s, es[k]) ==> es[k].now <= s.pending[es[k].req].readAt + delay
  }

  ghost predicate TouchInFlight(s: Sys, id: SessionId) {
    exists r | r in s.pending :: s.pending[r].id == id && s.pending[r].phase == Touching
  }

  lemma OnlyTouchMovesTimer(st: Statement, key: SessionId, s: Session)
    ensures UpdateRow(st, key, s).lastActiveAt == if st.TouchLastActive? && st.id == key then st.now else s.lastActiveAt
  {
  }

  /** How a step moves the timer of a row that was there before. */
  lemma TimerAfterStep(s: Sys, e: Event, id: SessionId)
    requires Enabled(s, e) && s.rows.Keys <= s.used && id in Next(s, e).rows && id in s.rows
    ensures Next(s, e).rows[id].lastActiveAt ==
            if EndsTouch(s, e) && e.ok && s.pending[e.req].id == id then e.now else s.rows[id].lastActiveAt
  {
    RowAfterStep(s, e, id);
    if Executed(s, e).Some? { OnlyTouchMovesTimer(Executed(s, e).value, id, s.rows[id]); }
  }

  ghost predicate Clocked(s: Sys) {
    && s.rows.Keys <= s.used
    && (forall id | id in s.rows :: id in s.accepted && s.accepted[id] <= s.clock)
    && (forall r | r in s.pending && s.pending[r].phase == Touching ::
          s.pending[r].id in s.accepted && s.pending[r].readAt <= s.accepted[s.pending[r].id])
  }

  lemma AcceptedAfterStep(s: Sys, e: Event, id: SessionId)
    requires Enabled(s, e)
    ensures Next(s, e).clock == e.now
    ensures var now := (Created(e).Some? && id == e.id) || (e.Begin? && e.id == id && Accepts(s.rows, id, e.now));
            if now then id in Next(s, e).accepted && Next(s, e).accepted[id] == e.now
            else (id in Next(s, e).accepted <==> id in s.accepted) &&
                 (id in s.accepted ==> Next(s, e).accepted[id] == s.accepted[id])
  {
  }

  lemma NextKeepsClocked(s: Sys, e: Event)
    requires Clocked(s) && Enabled(s, e) && forall id | id in s.accepted :: s.accepted[id] <= s.clock
    ensures Clocked(Next(s, e)) && forall id | id in Next(s, e).accepted :: Next(s, e).accepted[id] <= e.now
  {
    var t := Next(s, e);
    forall id | id in t.rows
      ensures id in t.used && id in t.accepted
    {
      RowAfterStep(s, e, id);
      AcceptedAfterStep(s, e, id);
    }
    forall id | id in t.accepted
      ensures t.accepted[id] <= t.clock
    {
      AcceptedAfterStep(s, e, id);
    }
    forall r | r in t.pending && t.pending[r].phase == Touching
      ensures t.pending[r].id in t.accepted && t.pending[r].readAt <= t.accepted[t.pending[r].id]
    {
      PendingAfterStep(s, e, r);
      AcceptedAfterStep(s, e, t.pending[r].id);
    }
  }

  lemma {:induction false} RunIsClocked(clock: Time, es: seq<Event>)
    ensures var s := Run(Start(clock), es); Clocked(s) && forall id | id in s.accepted :: s.accepted[id] <= s.clock
  {
    if es != [] {
      RunIsClocked(clock, es[..|es| - 1]);
      var before := Run(Start(clock), es[..|es| - 1]);
      if Enabled(before, es[|es| - 1]) { NextKeepsClocked(before, es[|es| - 1]); }
    }
  }

  /** The timer is not ahead of the last accepted request by more than the delay of touches. */
  ghost predicate NotAhead(s: Sys, delay: nat) {
    forall id | id in s.rows && id in s.accepted :: s.rows[id].lastActiveAt <= s.accepted[id] + delay
  }

  lemma NextKeepsNotAhead(s: Sys, e: Event, delay: nat)
    requires Clocked(s) && NotAhead(s, delay) && Enabled(s, e)
    requires forall id | id in s.accepted :: s.accepted[id] <= s.clock
    requires EndsTouch(s, e) ==> e.now <= s.pending[e.req].readAt + delay
    ensures NotAhead(Next(s, e), delay)
  {
    forall id | id in Next(s, e).rows && id in Next(s, e).accepted
      ensures Next(s, e).rows[id].lastActiveAt <= Next(s, e).accepted[id] + delay
    {
      AcceptedAfterStep(s, e, id);
      RowAfterStep(s, e, id);
      if id in s.rows && !(Created(e).Some? && id == e.id) { TimerAfterStep(s, e, id); }
    }
  }

  /** The timer is at most a minute behind, unless a touch is still on its way. */
  ghost predicate NotBehind(s: Sys) {
    forall id | id in s.rows && id in s.accepted ::
      s.accepted[id] - TOUCH_DEBOUNCE <= s.rows[id].lastActiveAt || TouchInFlight(s, id)
  }

  lemma TouchStaysInFlight(s: Sys, e: Event, id: SessionId)
    requires Enabled(s, e) && TouchInFlight(s, id) && !(EndsTouch(s, e) && s.pending[e.req].id == id)
    ensures TouchInFlight(Next(s, e), id)
  {
    var r :| r in s.pending && s.pending[r].id == id && s.pending[r].phase == Touching;
    assert r in Next(s, e).pending && Next(s, e).pending[r] == s.pending[r];
  }

  lemma NextKeepsNotBehind(s: Sys, e: Event)
    requires Clocked(s) && NotBehind(s) && Enabled(s, e) && (EndsTouch(s, e) ==> e.ok)
    requires forall id | id in s.accepted :: s.accepted[id] <= s.clock
    ensures NotBehind(Next(s, e))
  {
    var t := Next(s, e);
    forall id | id in t.rows && id in t.accepted
      ensures t.accepted[id] - TOUCH_DEBOUNCE <= t.rows[id].lastActiveAt || TouchInFlight(t, id)
    {
      AcceptedAfterStep(s, e, id);
      RowAfterStep(s, e, id);
      if id in s.rows && !(Created(e).Some? && id == e.id) {
        TimerAfterStep(s, e, id);
        if e.Begin? && e.id == id && ReadGate(s.rows, id, e.now).NeedsTouch? {
          assert t.pending[e.req].phase == Touching;
        } else if TouchInFlight(s, id) && !(EndsTouch(s, e) && s.pending[e.req].id == id) {
          TouchStaysInFlight(s, e, id);
        }
      }
    }
  }

  /** The debounced timer is close to the exact one. If no touch takes longer than `delay`,
      last_active_at is never more than that after the last accepted request; if no touch
      fails, it is at most a minute before it whenever none is in flight. With touches that
      land at the instant of their reading, `delay` is 0. */
  lemma {:induction false} TimerIsWithinAMinute(clock: Time, es: seq<Event>, delay: nat)
    ensures TouchesWithin(clock, es, delay) ==> NotAhead(Run(Start(clock), es), delay)
    ensures TouchesSucceed(clock, es) ==> NotBehind(Run(Start(clock), es))
  {
    if es != [] {
      var front, e := es[..|es| - 1], es[|es| - 1];
      var before := Run(Start(clock), front);
      assert forall k | 0 <= k < |front| :: front[k] == es[k] && front[..k] == es[..k];
      TimerIsWithinAMinute(clock, front, delay);
      RunIsClocked(clock, front);
      if Enabled(before, e) {
        if TouchesWithin(clock, es, delay) { NextKeepsNotAhead(before, e, delay); }
        if TouchesSucceed(clock, es) { NextKeepsNotBehind(before, e); }
      }
    }
  }

  /** For a session within its absolute expiry and not revoked: if touches succeed and none is
      in flight, a gap of at most 29 minutes since the last accepted request is never
      rejected; a gap over 30 minutes, plus the delay of touches, always is. */
  lemma IdleGapDecides(clock: Time, es: seq<Event>, id: SessionId, now: Time, delay: nat)
    requires var s := Run(Start(clock), es); id in s.rows && Live(s.rows[id], now) && now >= s.clock
    ensures var s := Run(Start(clock), es);
            && id in s.accepted
            && (TouchesSucceed(clock, es) && !TouchInFlight(s, id) && now - s.accepted[id] <= 29 * MINUTE ==>
                  Accepts(s.rows, id, now))
            && (TouchesWithin(clock, es, delay) && now - s.accepted[id] > 30 * MINUTE + delay ==>
                  ReadGate(s.rows, id, now).Idle?)
  {
    TimerIsWithinAMinute(clock, es, delay);
    RunIsClocked(clock, es);
  }

  /** A touch in flight does matter: a request is rejected for idleness one second after an
      accepted one whose touch has not landed. */
  function ImpatientSchedule(): seq<Event> {
    [OtherLogin(1, 7, Passkey, 0), Begin(1, 1, Browse, IDLE_TIMEOUT)]
  }

  lemma {:induction false} RejectedWhileTouchInFlight()
    ensures var s := Run(Start(0), ImpatientSchedule());
            && 1 in s.rows && 1 in s.accepted && s.accepted[1] == s.clock == IDLE_TIMEOUT
            && ReadGate(s.rows, 1, s.clock + 1).Idle?
  {
    var login, begin := OtherLogin(1, 7, Passkey, 0), Begin(1, 1, Browse, IDLE_TIMEOUT);
    RunOne(Start(0), [], login);
    RunOne(Start(0), [login], begin);
    assert [] + [login] == [login] && [login] + [begin] == ImpatientSchedule();
    var s1 := Next(Start(0), login);
    assert s1.rows == map[1 := NewSession(7, Passkey, PreTenant, 0)];
    AcceptedAt(s1, begin);
  }

  /** Reading changes no row. */
  lemma {:induction false} AcceptedAt(s: Sys, e: Event)
    requires Enabled(s, e) && e.Begin? && Accepts(s.rows, e.id, e.now)
    ensures Next(s, e).rows == s.rows && Next(s, e).clock == e.now
    ensures e.id in Next(s, e).accepted && Next(s, e).accepted[e.id] == e.now
  {
  }

  // ---------- After an idle rejection ----------

  /** No request on the session is let in again, whatever happens. */
  ghost predicate StaysOut(s: Sys, id: SessionId) {
    forall later, now | now >= Run(s, later).clock :: !Accepts(Run(s, later).rows, id, now)
  }

  /** Idle for too long, with nothing on its way that could move the timer. */
  ghost predicate Stale(s: Sys, id: SessionId) {
    && s.rows.Keys <= s.used && id in s.used && !TouchInFlight(s, id)
    && (id in s.rows ==> s.clock - s.rows[id].lastActiveAt > IDLE_TIMEOUT)
  }

  lemma NextKeepsStale(s: Sys, e: Event, id: SessionId)
    requires Stale(s, id) && Enabled(s, e)
    ensures Stale(Next(s, e), id)
  {
    var t := Next(s, e);
    forall key | key in t.rows
      ensures key in t.used
    {
      RowAfterStep(s, e, key);
    }
    if id in t.rows {
      RowAfterStep(s, e, id);
      TimerAfterStep(s, e, id);
    }
    forall r | r in t.pending
      ensures !(t.pending[r].id == id && t.pending[r].phase == Touching)
    {
      PendingAfterStep(s, e, r);
    }
  }

  lemma {:induction false} StaleStaysStale(s: Sys, later: seq<Event>, id: SessionId)
    requires Stale(s, id)
    ensures Stale(Run(s, later), id)
  {
    if later != [] {
      var front := later[..|later| - 1];
      StaleStaysStale(s, front, id);
      if Enabled(Run(s, front), later[|later| - 1]) { NextKeepsStale(Run(s, front), later[|later| - 1], id); }
    }
  }

  lemma StaleStaysOut(s: Sys, id: SessionId)
    requires Stale(s, id)
    ensures StaysOut(s, id)
  {
    forall later, now | now >= Run(s, later).clock
      ensures !Accepts(Run(s, later).rows, id, now)
    {
      StaleStaysStale(s, later, id);
    }
  }

  lemma {:induction false} TouchLands(s: Sys, e: Event)
    requires Enabled(s, e) && EndsTouch(s, e) && e.ok
    requires var id := s.pending[e.req].id; id in s.rows && Live(s.rows[id], e.now)
    ensures Next(s, e).clock == e.now && Accepts(Next(s, e).rows, s.pending[e.req].id, e.now)
  {
  }

  /** A touch in flight brings an idle session back. */
  lemma {:induction false} TouchRevives(s: Sys, id: SessionId)
    requires TouchInFlight(s, id) && id in s.rows && Live(s.rows[id], s.clock)
    ensures !StaysOut(s, id)
  {
    var r :| r in s.pending && s.pending[r].id == id && s.pending[r].phase == Touching;
    var e := Continue(r, true, s.clock);
    RunOne(s, [], e);
    assert [] + [e] == [e] && Run(s, []) == s;
    TouchLands(s, e);
    assert Accepts(Run(s, [e]).rows, id, s.clock);
  }

  lemma TouchInFlightAfterIdle(s: Sys, e: Event)
    requires Enabled(s, e) && e.Begin? && ReadGate(s.rows, e.id, e.now).Idle?
    ensures TouchInFlight(Next(s, e), e.id) <==> TouchInFlight(s, e.id)
    ensures Next(s, e).rows == s.rows && Next(s, e).used == s.used && Next(s, e).clock == e.now
    ensures e.req in Next(s, e).pending && Next(s, e).pending[e.req].phase == Revoking
    ensures Next(s, e).pending[e.req].id == e.id
  {
    var t := Next(s, e);
    if TouchInFlight(s, e.id) { TouchStaysInFlight(s, e, e.id); }
    if TouchInFlight(t, e.id) {
      var r :| r in t.pending && t.pending[r].id == e.id && t.pending[r].phase == Touching;
      assert r in s.pending && s.pending[r] == t.pending[r];
    }
  }

  /** When a request is rejected for idleness, under any interleaving: no request on the
      session is let in from then on, if and only if no touch of an earlier request is still
      in flight. */
  lemma IdleSessionStaysOut(clock: Time, es: seq<Event>, e: Event)
    requires var s := Run(Start(clock), es); Enabled(s, e) && e.Begin? && ReadGate(s.rows, e.id, e.now).Idle?
    ensures var s := Run(Start(clock), es); StaysOut(Next(s, e), e.id) <==> !TouchInFlight(s, e.id)
  {
    var s := Run(Start(clock), es);
    RunIsClocked(clock, es);
    TouchInFlightAfterIdle(s, e);
    if TouchInFlight(s, e.id) {
      TouchRevives(Next(s, e), e.id);
    } else {
      StaleStaysOut(Next(s, e), e.id);
    }
  }

  /** Once the lazy revoke has been tried, the session stays out if and only if the revoke
      succeeded or no touch is in flight. */
  lemma LazyRevokeDecides(clock: Time, es: seq<Event>, e: Event, ok: bool, at: Time)
    requires var s := Run(Start(clock), es);
             Enabled(s, e) && e.Begin? && ReadGate(s.rows, e.id, e.now).Idle? &&
             e.now <= at < s.rows[e.id].expiresAt
    ensures var s := Run(Start(clock), es);
            && Enabled(Next(s, e), Continue(e.req, ok, at))
            && (StaysOut(Next(Next(s, e), Continue(e.req, ok, at)), e.id) <==> ok || !TouchInFlight(s, e.id))
  {
    var s := Run(Start(clock), es);
    var t, f := Next(s, e), Continue(e.req, ok, at);
    RunIsClocked(clock, es);
    TouchInFlightAfterIdle(s, e);
    var q := Next(t, f);
    if ok {
      RevokedStaysOut(q, e.id);
    } else if TouchInFlight(s, e.id) {
      TouchStaysInFlight(t, f, e.id);
      TouchRevives(q, e.id);
    } else {
      NextKeepsStale(t, f, e.id);
      StaleStaysOut(q, e.id);
    }
  }

  lemma RevokedStaysOut(s: Sys, id: SessionId)
    requires Dead(s, id)
    ensures StaysOut(s, id)
  {
    forall later, now | now >= Run(s, later).clock
      ensures !Accepts(Run(s, later).rows, id, now)
    {
      RevokedForever(s, later, id, now);
    }
  }
}
