/** The handlers that create sessions and move them between contexts
    (backend/internal/auth/auth.go). Lookups and code checks are parameters. */
module AuthHandlers {
  import opened Wrappers
  import opened Clock
  import opened Lockout
  import opened Sessions
  import System = SessionSystem

  datatype LoginResult = InvalidCredentials | AccountLocked | AccountSuspended | LoggedIn(state: State)

  datatype Response = Done | Forbidden

  /** What the memberships query returns for an identity and a tenant. */
  datatype Membership = Membership(user: UserId, subOrg: Option<nat>, role: string)

  class AuthHandler {
    const sessions: SessionStore
    var byEmail: map<string, IdentityId>
    var accounts: map<IdentityId, Account>

    constructor (sessions: SessionStore, byEmail: map<string, IdentityId>, accounts: map<IdentityId, Account>)
      ensures this.sessions == sessions && this.byEmail == byEmail && this.accounts == accounts
    {
      this.sessions, this.byEmail, this.accounts := sessions, byEmail, accounts;
    }

    method RecordFailedLogin(id: IdentityId, now: Time)
      requires id in accounts
      modifies this`accounts
      ensures accounts == old(accounts)[id := Lockout.RecordFailedLogin(old(accounts)[id], now)]
    {
      var a := accounts[id];
      var attempts := a.failed + 1;
      var locked := a.lockedUntil;
      if attempts >= MAX_FAILED_LOGINS {
        locked := Some(now + LOCK_DURATION);
      }
      accounts := accounts[id := a.(failed := attempts, lockedUntil := locked)];
    }

    method ClearFailedLogin(id: IdentityId)
      requires id in accounts
      modifies this`accounts
      ensures accounts == old(accounts)[id := Lockout.ClearFailedLogin(old(accounts)[id])]
    {
      accounts := accounts[id := accounts[id].(failed := 0, lockedUntil := None)];
    }

    /** `correct` is the bcrypt outcome, `recorded` whether the update of the failed-login
        counter succeeds (a failing one is only logged), `has2FA` whether a second factor is enrolled, and
        `newId` the id the database would give a new session. A login that succeeds makes a
        pre_auth or setup_2fa session; a correct password on a suspended account still
        resets the counter. */
    method Login(email: string, correct: bool, recorded: bool, has2FA: bool, newId: SessionId, now: Time)
      returns (r: LoginResult)
      requires newId !in sessions.rows
      requires email in byEmail ==> byEmail[email] in accounts
      modifies this`accounts, sessions
      ensures email !in byEmail ==> r == InvalidCredentials && accounts == old(accounts)
      ensures email in byEmail ==>
                var id, a := byEmail[email], old(accounts)[byEmail[email]];
                && accounts == old(accounts)[id := AfterAttempt(a, Attempt(now, correct, recorded))]
                && r == (if !a.hasPassword then InvalidCredentials
                         else if IsLocked(a, now) then AccountLocked
                         else if !correct then InvalidCredentials
                         else if a.suspended then AccountSuspended
                         else LoggedIn(if has2FA then PreAuth else Setup2FA))
      ensures sessions.rows == if r.LoggedIn?
                               then old(sessions.rows)[newId := NewSession(byEmail[email], Password, r.state, now)]
                               else old(sessions.rows)
    {
      if email !in byEmail {
        return InvalidCredentials;
      }
      var id := byEmail[email];
      var ident := accounts[id];
      if !ident.hasPassword {
        return InvalidCredentials;
      }
      if ident.lockedUntil.Some? && now < ident.lockedUntil.value {
        return AccountLocked;
      }
      if !correct {
        if recorded {
          RecordFailedLogin(id, now);
        }
        return InvalidCredentials;
      }
      if recorded {
        ClearFailedLogin(id);
      }
      if ident.suspended {
        return AccountSuspended;
      }
      var state := Setup2FA;
      if has2FA {
        state := PreAuth;
      }
      var _ := sessions.Create(newId, id, Password, state, now);
      return LoggedIn(state);
    }

    /** The handlers below receive the session as the middleware read it. */
    method SelectTenant(sid: SessionId, sess: Session, tenant: TenantId, member: Option<Membership>,
                        tenantSuspended: bool, now: Time) returns (r: Response)
      modifies sessions
      ensures r == if member.None? || tenantSuspended then Forbidden else Done
      ensures r == Done ==>
                var op := System.SelectTenant(tenant, member.value.user, member.value.subOrg, member.value.role);
                System.Update(sid, op, sess.state, now) == Some(Statement.SetTenant(
                  sid, tenant, member.value.user, member.value.subOrg, member.value.role, now)) &&
                sessions.rows == Exec(old(sessions.rows), System.Update(sid, op, sess.state, now).value)
      ensures r == Done && sid in old(sessions.rows) ==>
                var row := sessions.rows[sid];
                && row.state == Authenticated && !row.superAdmin && row.tenant == Some(tenant)
                && row.user == Some(member.value.user) && row.role == Some(member.value.role)
                && row.subOrg == member.value.subOrg
      ensures r != Done ==> sessions.rows == old(sessions.rows)
    {
      if member.None? {
        return Forbidden;
      }
      if tenantSuspended {
        return Forbidden;
      }
      sessions.SetTenant(sid, tenant, member.value.user, member.value.subOrg, member.value.role, now);
      return Done;
    }

    method SelectAdmin(sid: SessionId, sess: Session, now: Time) returns (r: Response)
      modifies sessions
      ensures r == if sess.identity in accounts && accounts[sess.identity].superAdmin then Done else Forbidden
      ensures r == Done ==>
                sessions.rows == Exec(old(sessions.rows), System.Update(sid, System.SelectAdmin, sess.state, now).value)
      ensures r != Done ==> sessions.rows == old(sessions.rows)
    {
      if sess.identity !in accounts || !accounts[sess.identity].superAdmin {
        return Forbidden;
      }
      sessions.SetSuperAdmin(sid, now);
      return Done;
    }

    method SwitchContext(sid: SessionId, sess: Session, now: Time)
      modifies sessions
      ensures sessions.rows == Exec(old(sessions.rows), System.Update(sid, System.SwitchContext, sess.state, now).value)
    {
      sessions.ResetContext(sid);
    }
  }
}
