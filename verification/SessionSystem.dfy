/** Concurrent requests over the sessions table.

    A request is up to three steps: the middleware reads the row; the revoke of an idle
    session or the touch of the timer follows; and, past the state gate of its router group,
    the handler issues its UPDATE, which no longer looks at the state. Other requests,
    revocations and the cleanup job may run in between. */
module SessionSystem {
  import opened Wrappers
  import opened Clock
  import opened Sessions

  type RequestId = nat

  /** The handlers that change a session, and Browse for all that do not. */
  datatype Op =
    | Verify2FA(factor: Factor)
    | ConfirmEnroll
    | SelectTenant(tenant: TenantId, user: UserId, subOrg: Option<nat>, role: string)
    | SelectAdmin
    | SwitchContext
    | Browse

  /** The state gates of the router groups. */
  predicate Allowed(op: Op, s: State) {
    match op
    case Verify2FA(_) => s == PreAuth
    case ConfirmEnroll => s == Setup2FA || s == Authenticated
    case SelectTenant(_, _, _, _) => s == PreTenant
    case SelectAdmin => s == PreTenant
    case SwitchContext => s == Authenticated
    case Browse => true
  }

  /** The same by state: what a session can do next. */
  lemma WhatAStateAdmits(op: Op, s: State)
    ensures Allowed(op, s) <==>
            match s
            case PreAuth => op.Verify2FA? || op.Browse?
            case Setup2FA => op.ConfirmEnroll? || op.Browse?
            case PreTenant => op.SelectTenant? || op.SelectAdmin? || op.Browse?
            case Authenticated => op.SwitchContext? || op.ConfirmEnroll? || op.Browse?
  {
  }

  /** What a request in flight does next. */
  datatype Phase = Revoking | Touching | Handling

  /** `checked` is the state of the row as it was read, at `readAt`. */
  datatype Pending = Pending(id: SessionId, op: Op, checked: State, readAt: Time, phase: Phase)

  /** The update the handler issues when its own checks succeed. Enrolment promotes only a
      session that was seen in setup_2fa. */
  function Update(id: SessionId, op: Op, checked: State, now: Time): Option<Statement> {
    match op
    case Verify2FA(f) => Some(SetSecondFactor(id, f, now))
    case ConfirmEnroll => if checked == Setup2FA then Some(SetSecondFactor(id, Totp, now)) else None
    case SelectTenant(tenant, user, subOrg, role) => Some(SetTenant(id, tenant, user, subOrg, role, now))
    case SelectAdmin => Some(SetSuperAdmin(id, now))
    case SwitchContext => Some(ResetContext(id))
    case Browse => None
  }

  /** The statement of a request's next step. */
  function Effect(p: Pending, now: Time): Option<Statement> {
    match p.phase
    case Revoking => Some(Revoke(p.id, now))
    case Touching => Some(TouchLastActive(p.id, now))
    case Handling => Update(p.id, p.op, p.checked, now)
  }

  datatype Event =
    | PasswordLogin(id: SessionId, identity: IdentityId, has2FA: bool, now: Time)
    | OtherLogin(id: SessionId, identity: IdentityId, login: AuthMethod, now: Time)
    | Begin(req: RequestId, id: SessionId, op: Op, now: Time)
    | Continue(req: RequestId, ok: bool, now: Time)
    | Maintain(st: Statement, now: Time)
    | DeleteOldRows(now: Time)

  /** Statements issued outside the gated handlers: revocations, the first statement of the
      cleanup job, and sub-org changes. */
  predicate Maintenance(st: Statement) {
    || st.Revoke? || st.RevokeByTenant? || st.RevokeByIdentity? || st.RevokeByIdentityExcept?
    || st.RevokeExpired? || st.UpdateSubOrg?
  }

  datatype Entry = Entry(id: SessionId, select: bool)

  /** `used` are the session ids ever issued, `log` the completed context changes, and
      `accepted` the last instant a request on the session was read and let in (or the
      session was created). */
  datatype Sys = Sys(rows: Table, pending: map<RequestId, Pending>, used: set<SessionId>, log: seq<Entry>,
                     accepted: map<SessionId, Time>, clock: Time)

  function Start(clock: Time): Sys {
    Sys(map[], map[], {}, [], map[], clock)
  }

  /** Ids are fresh, a request is answered once, and the clock does not run backwards. */
  predicate Enabled(s: Sys, e: Event) {
    && e.now >= s.clock
    && match e
       case PasswordLogin(id, _, _, _) => id !in s.used
       case OtherLogin(id, _, login, _) => id !in s.used && login != Password
       case Begin(req, _, _, _) => req !in s.pending
       case Continue(req, _, _) => req in s.pending
       case Maintain(st, _) => Maintenance(st)
       case DeleteOldRows(_) => true
  }

  function Insert(s: Sys, id: SessionId, row: Session, now: Time): Sys {
    s.(rows := s.rows[id := row], used := s.used + {id}, accepted := s.accepted[id := now], clock := now)
  }

  /** How a request goes on after its reading; None is an answer without further steps. */
  function Enter(reading: Reading, id: SessionId, op: Op, now: Time): Option<Pending> {
    match reading
    case Refused => None
    case Idle(row) => Some(Pending(id, op, row.state, now, Revoking))
    case NeedsTouch(row) => Some(Pending(id, op, row.state, now, Touching))
    case Recent(row) => if Allowed(op, row.state) then Some(Pending(id, op, row.state, now, Handling)) else None
  }

  /** After the touch comes the state gate, on the row as it was read. */
  function Resume(p: Pending): Option<Pending> {
    if p.phase == Touching && Allowed(p.op, p.checked) then Some(p.(phase := Handling)) else None
  }

  function WithPending(s: Sys, req: RequestId, p: Option<Pending>): Sys {
    s.(pending := if p.Some? then s.pending[req := p.value] else s.pending - {req})
  }

  function Next(s: Sys, e: Event): Sys
    requires Enabled(s, e)
  {
    match e
    case PasswordLogin(id, identity, has2FA, now) =>
      Insert(s, id, NewSession(identity, Password, if has2FA then PreAuth else Setup2FA, now), now)
    case OtherLogin(id, identity, login, now) =>
      Insert(s, id, NewSession(identity, login, PreTenant, now), now)
    case Begin(req, id, op, now) =>
      WithPending(s, req, Enter(ReadGate(s.rows, id, now), id, op, now))
        .(accepted := if Accepts(s.rows, id, now) then s.accepted[id := now] else s.accepted, clock := now)
    case Continue(req, ok, now) =>
      var p := s.pending[req];
      var done := WithPending(s, req, Resume(p)).(clock := now);
      if !ok || Effect(p, now).None? then done
      else
        done.(rows := Exec(s.rows, Effect(p, now).value),
              log := if p.phase != Handling then s.log
                     else if p.op.SelectTenant? || p.op.SelectAdmin? then s.log + [Entry(p.id, true)]
                     else if p.op.SwitchContext? then s.log + [Entry(p.id, false)]
                     else s.log)
    case Maintain(st, now) => s.(rows := Exec(s.rows, st), clock := now)
    case DeleteOldRows(now) => s.(rows := DeleteOld(s.rows, now), clock := now)
  }

  /** Any schedule; a step that is not enabled does nothing. */
  function Run(s: Sys, es: seq<Event>): Sys {
    if es == [] then s
    else
      var before, e := Run(s, es[..|es| - 1]), es[|es| - 1];
      if Enabled(before, e) then Next(before, e) else before
  }

  lemma RunOne(s: Sys, es: seq<Event>, e: Event)
    ensures Run(s, es + [e]) == if Enabled(Run(s, es), e) then Next(Run(s, es), e) else Run(s, es)
  {
    assert (es + [e])[..|es|] == es;
  }

  /** Schedules in which a session has one request in flight at a time: a request that
      would overlap another one on the same session waits its turn. */
  predicate Overlaps(s: Sys, e: Event) {
    e.Begin? && exists r | r in s.pending :: s.pending[r].id == e.id
  }

  function RunSerial(s: Sys, es: seq<Event>): Sys {
    if es == [] then s
    else
      var before, e := RunSerial(s, es[..|es| - 1]), es[|es| - 1];
      if Enabled(before, e) && !Overlaps(before, e) then Next(before, e) else before
  }

  /** A schedule of the serial kind is a schedule. */
  lemma {:induction false} SerialIsRun(s: Sys, es: seq<Event>) returns (fs: seq<Event>)
    ensures Run(s, fs) == RunSerial(s, es) && |fs| <= |es|
  {
    if es == [] {
      fs := [];
    } else {
      var before, e := RunSerial(s, es[..|es| - 1]), es[|es| - 1];
      fs := SerialIsRun(s, es[..|es| - 1]);
      if Enabled(before, e) && !Overlaps(before, e) {
        assert (fs + [e])[..|fs|] == fs;
        fs := fs + [e];
      }
    }
  }

  // ---------- How one step changes one row ----------

  /** The statement, if any, that a step executes. */
  function Executed(s: Sys, e: Event): Option<Statement>
    requires Enabled(s, e)
  {
    match e
    case Continue(req, ok, now) => if ok then Effect(s.pending[req], now) else None
    case Maintain(st, _) => Some(st)
    case _ => None
  }

  /** The row a login inserts. */
  function Created(e: Event): Option<Session> {
    match e
    case PasswordLogin(_, identity, has2FA, now) =>
      Some(NewSession(identity, Password, if has2FA then PreAuth else Setup2FA, now))
    case OtherLogin(_, identity, login, now) => Some(NewSession(identity, login, PreTenant, now))
    case _ => None
  }

  /** Every row after a step was inserted by it, or is an old row under its statement. */
  lemma RowAfterStep(s: Sys, e: Event, id: SessionId)
    requires Enabled(s, e) && id in Next(s, e).rows
    ensures var row := Next(s, e).rows[id];
            if Created(e).Some? && id == e.id then Some(row) == Created(e)
            else id in s.rows && row == match Executed(s, e)
                                        case None => s.rows[id]
                                        case Some(st) => UpdateRow(st, id, s.rows[id])
  {
  }

  /** Read and followed up without interruption, a request does to the table what RequireSession
      does: an idle session is revoked, one that needs it is touched, and any other is left. */
  lemma UninterruptedGate(s: Sys, req: RequestId, id: SessionId, op: Op, now: Time, later: Time, ok: bool)
    requires Enabled(s, Begin(req, id, op, now)) && now <= later
    requires ReadGate(s.rows, id, now).Idle? || ReadGate(s.rows, id, now).NeedsTouch?
    ensures var t := Next(s, Begin(req, id, op, now));
            && Enabled(t, Continue(req, ok, later))
            && var rows := Next(t, Continue(req, ok, later)).rows;
            && var follow := FollowUp(ReadGate(s.rows, id, now), id, later);
            && rows == (if ok && follow.Some? then Exec(s.rows, follow.value) else s.rows)
            && (ok && ReadGate(s.rows, id, now).Idle? ==> id in rows && rows[id].revokedAt == Some(later))
            && (ok && ReadGate(s.rows, id, now).NeedsTouch? ==> id in rows && rows[id].lastActiveAt == later)
  {
  }

  /** Every request in flight after a step was there before, maybe one phase earlier, or has
      just been read by it. */
  lemma PendingAfterStep(s: Sys, e: Event, r: RequestId)
    requires Enabled(s, e) && r in Next(s, e).pending
    ensures var p := Next(s, e).pending[r];
            || (r in s.pending && p == s.pending[r])
            || (e.Continue? && r == e.req && r in s.pending && s.pending[r].phase == Touching &&
                Allowed(p.op, p.checked) && p == s.pending[r].(phase := Handling))
            || (e.Begin? && r == e.req && Some(p) == Enter(ReadGate(s.rows, e.id, e.now), e.id, e.op, e.now))
  {
  }
}
