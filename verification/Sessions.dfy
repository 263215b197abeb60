/** The sessions table (backend/internal/session/store.go) and the session gate of the
    middleware (backend/internal/auth/middleware.go). */
module Sessions {
  import opened Wrappers
  import opened Clock

  type SessionId = nat
  type IdentityId = nat
  type TenantId = nat
  type UserId = nat

  datatype State = PreAuth | Setup2FA | PreTenant | Authenticated

  /** How the session was created; every method but Password starts after its own factor. */
  datatype AuthMethod = Password | Passkey | Sso | Invite

  datatype Factor = Totp | EmailCode | PasskeyFactor

  datatype Session = Session(
    identity: IdentityId, login: AuthMethod, state: State,
    tenant: Option<TenantId>, user: Option<UserId>, subOrg: Option<nat>, role: Option<string>,
    secondFactor: Option<Factor>, superAdmin: bool,
    createdAt: Time, lastActiveAt: Time, expiresAt: Time, revokedAt: Option<Time>)

  type Table = map<SessionId, Session>

  const SESSION_DURATION := 7 * DAY
  const PRE_AUTH_DURATION := 15 * MINUTE
  const IDLE_TIMEOUT := 30 * MINUTE
  const TOUCH_DEBOUNCE := MINUTE
  const RETENTION := 90 * DAY

  /** The row inserted by Create. */
  function NewSession(identity: IdentityId, login: AuthMethod, state: State, now: Time): Session {
    var duration := if state.PreAuth? || state.Setup2FA? then PRE_AUTH_DURATION else SESSION_DURATION;
    Session(identity, login, state, None, None, None, None, None, false, now, now, now + duration, None)
  }

  /** A new session carries no context, no factor and no revocation, has just been active, and has
      15 minutes in a half-way state and seven days otherwise, in seconds. */
  lemma NewSessionIsBlank(identity: IdentityId, login: AuthMethod, state: State, now: Time)
    ensures var s := NewSession(identity, login, state, now);
            && s.identity == identity && s.login == login && s.state == state
            && s.tenant == None && s.user == None && s.subOrg == None && s.role == None
            && s.secondFactor == None && !s.superAdmin && s.revokedAt == None
            && s.createdAt == s.lastActiveAt == now
            && s.expiresAt - now == if state == PreAuth || state == Setup2FA then 900 else 604800
  {
  }

  predicate Live(s: Session, now: Time) {
    s.revokedAt.None? && s.expiresAt > now
  }

  /** The UPDATE statements of the store. */
  datatype Statement =
    | TouchLastActive(id: SessionId, now: Time)
    | SetTenant(id: SessionId, tenant: TenantId, user: UserId, subOrg: Option<nat>, role: string, now: Time)
    | SetSuperAdmin(id: SessionId, now: Time)
    | SetSecondFactor(id: SessionId, factor: Factor, now: Time)
    | ResetContext(id: SessionId)
    | Revoke(id: SessionId, now: Time)
    | RevokeByTenant(tenant: TenantId, now: Time)
    | RevokeByIdentity(identity: IdentityId, now: Time)
    | RevokeByIdentityExcept(identity: IdentityId, id: SessionId, now: Time)
    | UpdateSubOrg(user: UserId, subOrg: Option<nat>, now: Time)
    | RevokeExpired(now: Time)

  /** SET and WHERE of a statement, row by row. */
  function UpdateRow(st: Statement, key: SessionId, s: Session): Session {
    match st
    case TouchLastActive(id, now) => if key == id then s.(lastActiveAt := now) else s
    case SetTenant(id, tenant, user, subOrg, role, now) =>
      if key == id then
        s.(tenant := Some(tenant), user := Some(user), superAdmin := false, state := Authenticated,
           subOrg := subOrg, role := Some(role), expiresAt := now + SESSION_DURATION)
      else s
    case SetSuperAdmin(id, now) =>
      if key == id then s.(superAdmin := true, state := Authenticated, expiresAt := now + SESSION_DURATION) else s
    case SetSecondFactor(id, factor, now) =>
      if key == id then s.(secondFactor := Some(factor), state := PreTenant, expiresAt := now + SESSION_DURATION) else s
    case ResetContext(id) =>
      if key == id then s.(tenant := None, user := None, superAdmin := false, state := PreTenant) else s
    case Revoke(id, now) => if key == id && s.revokedAt.None? then s.(revokedAt := Some(now)) else s
    case RevokeByTenant(tenant, now) =>
      if s.tenant == Some(tenant) && Live(s, now) then s.(revokedAt := Some(now)) else s
    case RevokeByIdentity(identity, now) =>
      if s.identity == identity && Live(s, now) then s.(revokedAt := Some(now)) else s
    case RevokeByIdentityExcept(identity, id, now) =>
      if s.identity == identity && key != id && Live(s, now) then s.(revokedAt := Some(now)) else s
    case UpdateSubOrg(user, subOrg, now) => if s.user == Some(user) && Live(s, now) then s.(subOrg := subOrg) else s
    case RevokeExpired(now) => if s.revokedAt.None? && s.expiresAt < now then s.(revokedAt := Some(now)) else s
  }

  function Exec(t: Table, st: Statement): Table {
    map id | id in t :: UpdateRow(st, id, t[id])
  }

  function GetValid(t: Table, id: SessionId, now: Time): Option<Session> {
    if id in t && Live(t[id], now) then Some(t[id]) else None
  }

  function DeleteOld(t: Table, now: Time): Table {
    map id | id in t && t[id].createdAt >= now - RETENTION :: t[id]
  }

  /** CleanupExpired: revoke what has expired, then delete what is older than 90 days. */
  function Cleanup(t: Table, now: Time, later: Time): Table {
    DeleteOld(Exec(t, RevokeExpired(now)), later)
  }

  /** What RequireSession makes of the row it reads: absolute expiry first, then the idle
      timeout, which asks for a lazy revoke, then the debounce, which asks for a touch. */
  datatype Reading = Refused | Idle(row: Session) | NeedsTouch(row: Session) | Recent(row: Session)

  function ReadGate(t: Table, id: SessionId, now: Time): Reading {
    match GetValid(t, id, now)
    case None => Refused
    case Some(s) =>
      if now - s.lastActiveAt > IDLE_TIMEOUT then Idle(s)
      else if now - s.lastActiveAt > TOUCH_DEBOUNCE then NeedsTouch(s)
      else Recent(s)
  }

  /** A request that reads the row now gets past RequireSession. */
  predicate Accepts(t: Table, id: SessionId, now: Time) {
    ReadGate(t, id, now).NeedsTouch? || ReadGate(t, id, now).Recent?
  }

  /** The statement that follows the reading, at a later instant; a failing one is only
      logged. */
  function FollowUp(r: Reading, id: SessionId, later: Time): Option<Statement> {
    match r
    case Idle(_) => Some(Revoke(id, later))
    case NeedsTouch(_) => Some(TouchLastActive(id, later))
    case _ => None
  }

  /** What the middleware does with a request, in seconds: a session that is missing, revoked or
      at its expiry is refused; one idle for more than half an hour is turned away; one idle for
      more than a minute is touched. */
  lemma GateThresholds(t: Table, id: SessionId, now: Time)
    ensures var valid := id in t && t[id].revokedAt == None && now < t[id].expiresAt;
            && (ReadGate(t, id, now) == Refused <==> !valid)
            && (valid ==>
                  var gap := now - t[id].lastActiveAt;
                  && (ReadGate(t, id, now) == Idle(t[id]) <==> gap > 1800)
                  && (ReadGate(t, id, now) == NeedsTouch(t[id]) <==> 60 < gap <= 1800)
                  && (ReadGate(t, id, now) == Recent(t[id]) <==> gap <= 60))
  {
  }

  /** Which statements write which column; identity, login and creation time never change. */
  lemma ColumnsHaveTheirWriters(st: Statement, key: SessionId, s: Session)
    ensures var t := UpdateRow(st, key, s);
            && t.identity == s.identity && t.login == s.login && t.createdAt == s.createdAt
            && (t.state != s.state ==> st.SetTenant? || st.SetSuperAdmin? || st.SetSecondFactor? || st.ResetContext?)
            && (t.tenant != s.tenant || t.user != s.user ==> st.SetTenant? || st.ResetContext?)
            && (t.role != s.role ==> st.SetTenant?)
            && (t.subOrg != s.subOrg ==> st.SetTenant? || st.UpdateSubOrg?)
            && (t.secondFactor != s.secondFactor ==> st.SetSecondFactor?)
            && (t.superAdmin != s.superAdmin ==> st.SetTenant? || st.SetSuperAdmin? || st.ResetContext?)
            && (t.lastActiveAt != s.lastActiveAt ==> st.TouchLastActive?)
            && (t.expiresAt != s.expiresAt ==> st.SetTenant? || st.SetSuperAdmin? || st.SetSecondFactor?)
            && (t.revokedAt != s.revokedAt ==> s.revokedAt == None && t.revokedAt == Some(st.now))
  {
  }

  /** A statement that names one row changes that row only. */
  lemma ExecOne(t: Table, st: Statement, id: SessionId)
    requires forall key, s | key != id :: UpdateRow(st, key, s) == s
    ensures Exec(t, st) == if id in t then t[id := UpdateRow(st, id, t[id])] else t
  {
    if id in t {
      assert Exec(t, st).Keys == t[id := UpdateRow(st, id, t[id])].Keys;
    }
  }

  /** Bulk revocation takes exactly its targets out: the live sessions of the tenant, of the
      identity, or of the identity except the caller's own. */
  lemma RevocationTargets(t: Table, tenant: TenantId, identity: IdentityId, own: SessionId, id: SessionId, now: Time)
    requires id in t
    ensures GetValid(Exec(t, RevokeByTenant(tenant, now)), id, now) ==
            if t[id].tenant == Some(tenant) then None else GetValid(t, id, now)
    ensures GetValid(Exec(t, RevokeByIdentity(identity, now)), id, now) ==
            if t[id].identity == identity then None else GetValid(t, id, now)
    ensures GetValid(Exec(t, RevokeByIdentityExcept(identity, own, now)), id, now) ==
            if t[id].identity == identity && id != own then None else GetValid(t, id, now)
  {
  }

  /** The cleanup job never ends a valid session, except by deleting one created more than
      90 days ago, which renewed expiries can keep valid that long. */
  lemma CleanupSparesValidSessions(t: Table, id: SessionId, now: Time, later: Time)
    requires id in t && now <= later
    ensures GetValid(Cleanup(t, now, later), id, later) ==
            if t[id].createdAt >= later - RETENTION then GetValid(t, id, later) else None
  {
    var revoked := Exec(t, RevokeExpired(now));
    assert id in revoked;
  }

  /** The job leaves exactly the rows of the last 90 days, and none of those that had expired
      unrevoked. */
  lemma CleanupLeaves(t: Table, now: Time, later: Time, id: SessionId)
    ensures id in Cleanup(t, now, later) <==> id in t && t[id].createdAt >= later - 7776000
    ensures id in Cleanup(t, now, later) ==>
              var s := Cleanup(t, now, later)[id];
              s == t[id].(revokedAt := s.revokedAt) &&
              s.revokedAt == if t[id].revokedAt == None && t[id].expiresAt < now then Some(now) else t[id].revokedAt
  {
  }

  class SessionStore {
    var rows: Table

    constructor ()
      ensures rows == map[]
    {
      rows := map[];
    }

    method Create(id: SessionId, identity: IdentityId, login: AuthMethod, state: State, now: Time) returns (s: Session)
      requires id !in rows
      modifies this
      ensures s == NewSession(identity, login, state, now) && rows == old(rows)[id := s]
    {
      var duration := SESSION_DURATION;
      if state == PreAuth || state == Setup2FA {
        duration := PRE_AUTH_DURATION;
      }
      s := Session(identity, login, state, None, None, None, None, None, false, now, now, now + duration, None);
      rows := rows[id := s];
    }

    method TouchLastActive(id: SessionId, now: Time)
      modifies this
      ensures rows == Exec(old(rows), Statement.TouchLastActive(id, now))
    {
      ExecOne(rows, Statement.TouchLastActive(id, now), id);
      if id in rows {
        rows := rows[id := rows[id].(lastActiveAt := now)];
      }
    }

    method SetTenant(id: SessionId, tenant: TenantId, user: UserId, subOrg: Option<nat>, role: string, now: Time)
      modifies this
      ensures rows == Exec(old(rows), Statement.SetTenant(id, tenant, user, subOrg, role, now))
    {
      ExecOne(rows, Statement.SetTenant(id, tenant, user, subOrg, role, now), id);
      if id in rows {
        rows := rows[id := rows[id].(tenant := Some(tenant), user := Some(user), superAdmin := false,
                                     state := Authenticated, subOrg := subOrg, role := Some(role),
                                     expiresAt := now + SESSION_DURATION)];
      }
    }

    method SetSuperAdmin(id: SessionId, now: Time)
      modifies this
      ensures rows == Exec(old(rows), Statement.SetSuperAdmin(id, now))
    {
      ExecOne(rows, Statement.SetSuperAdmin(id, now), id);
      if id in rows {
        rows := rows[id := rows[id].(superAdmin := true, state := Authenticated, expiresAt := now + SESSION_DURATION)];
      }
    }

    method SetSecondFactor(id: SessionId, factor: Factor, now: Time)
      modifies this
      ensures rows == Exec(old(rows), Statement.SetSecondFactor(id, factor, now))
    {
      ExecOne(rows, Statement.SetSecondFactor(id, factor, now), id);
      if id in rows {
        rows := rows[id := rows[id].(secondFactor := Some(factor), state := PreTenant,
                                     expiresAt := now + SESSION_DURATION)];
      }
    }

    method ResetContext(id: SessionId)
      modifies this
      ensures rows == Exec(old(rows), Statement.ResetContext(id))
    {
      ExecOne(rows, Statement.ResetContext(id), id);
      if id in rows {
        rows := rows[id := rows[id].(tenant := None, user := None, superAdmin := false, state := PreTenant)];
      }
    }

    /** False is ErrNotFound: no row, or already revoked. */
    method Revoke(id: SessionId, now: Time) returns (found: bool)
      modifies this
      ensures rows == Exec(old(rows), Statement.Revoke(id, now))
      ensures found <==> id in old(rows) && old(rows)[id].revokedAt.None?
    {
      ExecOne(rows, Statement.Revoke(id, now), id);
      found := id in rows && rows[id].revokedAt.None?;
      if found {
        rows := rows[id := rows[id].(revokedAt := Some(now))];
      }
    }

    /** The bulk revocations return the number of rows they revoked. */
    method RevokeByTenant(tenant: TenantId, now: Time) returns (count: nat)
      modifies this
      ensures rows == Exec(old(rows), Statement.RevokeByTenant(tenant, now))
      ensures count == |set id | id in old(rows) && rows[id] != old(rows)[id]|
    {
      var hit := set id | id in rows && rows[id].tenant == Some(tenant) && Live(rows[id], now);
      count := |hit|;
      rows := map id | id in rows :: if id in hit then rows[id].(revokedAt := Some(now)) else rows[id];
      assert hit == set id | id in old(rows) && rows[id] != old(rows)[id];
    }

    method RevokeByIdentity(identity: IdentityId, now: Time) returns (count: nat)
      modifies this
      ensures rows == Exec(old(rows), Statement.RevokeByIdentity(identity, now))
      ensures count == |set id | id in old(rows) && rows[id] != old(rows)[id]|
    {
      var hit := set id | id in rows && rows[id].identity == identity && Live(rows[id], now);
      count := |hit|;
      rows := map id | id in rows :: if id in hit then rows[id].(revokedAt := Some(now)) else rows[id];
      assert hit == set id | id in old(rows) && rows[id] != old(rows)[id];
    }

    method RevokeByIdentityExcept(identity: IdentityId, except: SessionId, now: Time) returns (count: nat)
      modifies this
      ensures rows == Exec(old(rows), Statement.RevokeByIdentityExcept(identity, except, now))
      ensures count == |set id | id in old(rows) && rows[id] != old(rows)[id]|
    {
      var hit := set id | id in rows && rows[id].identity == identity && id != except && Live(rows[id], now);
      count := |hit|;
      rows := map id | id in rows :: if id in hit then rows[id].(revokedAt := Some(now)) else rows[id];
      assert hit == set id | id in old(rows) && rows[id] != old(rows)[id];
    }

    method UpdateSubOrg(user: UserId, subOrg: Option<nat>, now: Time)
      modifies this
      ensures rows == Exec(old(rows), Statement.UpdateSubOrg(user, subOrg, now))
    {
      rows := map id | id in rows ::
        if rows[id].user == Some(user) && Live(rows[id], now) then rows[id].(subOrg := subOrg) else rows[id];
    }

    /** Returns the number of rows revoked, and whether both statements succeeded; the second
        is not tried when the first fails. */
    method CleanupExpired(now: Time, revokeOk: bool, later: Time, deleteOk: bool) returns (revoked: nat, ok: bool)
      modifies this
      ensures ok == (revokeOk && deleteOk)
      ensures rows == if !revokeOk then old(rows)
                      else if !deleteOk then Exec(old(rows), RevokeExpired(now))
                      else Cleanup(old(rows), now, later)
      ensures revoked == if !revokeOk then 0
                         else |set id | id in old(rows) && Exec(old(rows), RevokeExpired(now))[id] != old(rows)[id]|
    {
      if !revokeOk {
        return 0, false;
      }
      var hit := set id | id in rows && rows[id].revokedAt.None? && rows[id].expiresAt < now;
      revoked := |hit|;
      rows := map id | id in rows :: if id in hit then rows[id].(revokedAt := Some(now)) else rows[id];
      assert rows == Exec(old(rows), RevokeExpired(now));
      assert hit == set id | id in old(rows) && rows[id] != old(rows)[id];
      if !deleteOk {
        return revoked, false;
      }
      rows := map id | id in rows && rows[id].createdAt >= later - RETENTION :: rows[id];
      return revoked, true;
    }

    /** The middleware, run without interruption over this store: the revoke or the touch comes
        `later` and may fail. The session handed on is the row as it was read. */
    method RequireSession(id: SessionId, now: Time, later: Time, ok: bool) returns (r: Option<Session>)
      modifies this
      ensures r == if Accepts(old(rows), id, now) then Some(old(rows)[id]) else None
      ensures var follow := FollowUp(ReadGate(old(rows), id, now), id, later);
              rows == if ok && follow.Some? then Exec(old(rows), follow.value) else old(rows)
    {
      if id !in rows || rows[id].revokedAt.Some? || rows[id].expiresAt <= now {
        return None;
      }
      var sess := rows[id];
      if now - sess.lastActiveAt > IDLE_TIMEOUT {
        if ok {
          var _ := Revoke(id, later);
        }
        return None;
      }
      if now - sess.lastActiveAt > TOUCH_DEBOUNCE {
        if ok {
          TouchLastActive(id, later);
        }
      }
      return Some(sess);
    }
  }
}
