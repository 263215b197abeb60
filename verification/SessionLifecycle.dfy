/** What every reachable sessions table satisfies, under any interleaving of readings,
    touches, lazy revokes and updates. */
module SessionLifecycle {
  import opened Wrappers
  import opened Clock
  import opened Sessions
  import opened SessionSystem

  // ---------- Second factor: any interleaving ----------

  ghost predicate FactorSafe(s: Session) {
    s.login == Password && (s.state == PreTenant || s.state == Authenticated) ==> s.secondFactor.Some?
  }

  predicate ContextOp(op: Op) {
    op.SelectTenant? || op.SelectAdmin? || op.SwitchContext?
  }

  /** A request that will write pre_tenant or authenticated without setting the factor was
      let in when the factor was already there, and it has not gone away. */
  ghost predicate FactorInv(s: Sys) {
    && s.rows.Keys <= s.used
    && (forall id | id in s.rows :: FactorSafe(s.rows[id]))
    && (forall r | r in s.pending :: s.pending[r].id in s.used && FactorReady(s.rows, s.pending[r]))
  }

  ghost predicate FactorReady(rows: Table, p: Pending) {
    && (p.phase == Handling ==> Allowed(p.op, p.checked))
    && (ContextOp(p.op) && Allowed(p.op, p.checked) && p.id in rows && rows[p.id].login == Password ==>
          rows[p.id].secondFactor.Some?)
  }

  /** No statement clears the factor or changes how the session was created. */
  lemma FactorIsNeverCleared(st: Statement, key: SessionId, s: Session)
    ensures s.secondFactor.Some? ==> UpdateRow(st, key, s).secondFactor.Some?
    ensures UpdateRow(st, key, s).login == s.login
  {
  }

  /** A statement keeps a row safe if it sets the factor or finds it already there. */
  lemma UpdateKeepsFactorSafe(st: Statement, key: SessionId, s: Session)
    requires FactorSafe(s)
    requires (st.SetTenant? || st.SetSuperAdmin? || st.ResetContext?) && st.id == key && s.login == Password ==>
               s.secondFactor.Some?
    ensures FactorSafe(UpdateRow(st, key, s))
  {
  }

  lemma RowKeepsFactor(s: Sys, e: Event, id: SessionId)
    requires FactorInv(s) && Enabled(s, e) && id in Next(s, e).rows
    ensures FactorSafe(Next(s, e).rows[id])
    ensures id in s.rows ==> Next(s, e).rows[id].login == s.rows[id].login
    ensures id in s.rows && s.rows[id].secondFactor.Some? ==> Next(s, e).rows[id].secondFactor.Some?
  {
    RowAfterStep(s, e, id);
    if id in s.rows && Executed(s, e).Some? {
      if e.Continue? { assert FactorReady(s.rows, s.pending[e.req]); }
      UpdateKeepsFactorSafe(Executed(s, e).value, id, s.rows[id]);
      FactorIsNeverCleared(Executed(s, e).value, id, s.rows[id]);
    }
  }

  lemma PendingKeepsFactor(s: Sys, e: Event, r: RequestId)
    requires FactorInv(s) && Enabled(s, e) && r in Next(s, e).pending
    ensures FactorReady(Next(s, e).rows, Next(s, e).pending[r])
    ensures Next(s, e).pending[r].id in Next(s, e).used
  {
    var p := Next(s, e).pending[r];
    PendingAfterStep(s, e, r);
    if p.id in Next(s, e).rows {
      RowAfterStep(s, e, p.id);
      RowKeepsFactor(s, e, p.id);
    }
    if r in s.pending {
      assert FactorReady(s.rows, s.pending[r]);
    } else {
      assert p.id in s.rows && p.checked == s.rows[p.id].state && FactorSafe(s.rows[p.id]);
    }
  }

  lemma NextKeepsFactorInv(s: Sys, e: Event)
    requires FactorInv(s) && Enabled(s, e)
    ensures FactorInv(Next(s, e))
  {
    forall id | id in Next(s, e).rows
      ensures FactorSafe(Next(s, e).rows[id]) && id in Next(s, e).used
    {
      RowKeepsFactor(s, e, id);
      RowAfterStep(s, e, id);
    }
    forall r | r in Next(s, e).pending
      ensures FactorReady(Next(s, e).rows, Next(s, e).pending[r])
      ensures Next(s, e).pending[r].id in Next(s, e).used
    {
      PendingKeepsFactor(s, e, r);
    }
  }

  lemma {:induction false} RunKeepsFactorInv(clock: Time, es: seq<Event>)
    ensures FactorInv(Run(Start(clock), es))
  {
    if es != [] {
      RunKeepsFactorInv(clock, es[..|es| - 1]);
      var before := Run(Start(clock), es[..|es| - 1]);
      if Enabled(before, es[|es| - 1]) { NextKeepsFactorInv(before, es[|es| - 1]); }
    }
  }

  /** Under any interleaving, a session created by password login that is in pre_tenant or
      authenticated has its second factor recorded. */
  lemma PasswordSessionsHaveSecondFactor(clock: Time, es: seq<Event>, id: SessionId)
    requires id in Run(Start(clock), es).rows
    ensures var s := Run(Start(clock), es).rows[id];
            s.login == Password && s.state in {PreTenant, Authenticated} ==> s.secondFactor.Some?
  {
    RunKeepsFactorInv(clock, es);
  }

  // ---------- Expiry: any interleaving ----------

  ghost predicate ExpiryInv(s: Sys) {
    && s.rows.Keys <= s.used
    && (forall id | id in s.rows :: ExpiryRow(s.rows[id], s.clock))
  }

  ghost predicate ExpiryRow(s: Session, now: Time) {
    && s.createdAt <= now && s.expiresAt <= now + SESSION_DURATION
    && (s.state == PreAuth || s.state == Setup2FA ==> s.expiresAt == s.createdAt + PRE_AUTH_DURATION)
  }

  /** A statement that moves the expiry does so from the current clock. */
  predicate ExpiresFrom(st: Statement, now: Time) {
    st.SetTenant? || st.SetSuperAdmin? || st.SetSecondFactor? ==> st.now == now
  }

  lemma UpdateKeepsExpiry(st: Statement, key: SessionId, s: Session, before: Time, now: Time)
    requires ExpiryRow(s, before) && before <= now && ExpiresFrom(st, now)
    ensures ExpiryRow(UpdateRow(st, key, s), now)
  {
  }

  lemma NextKeepsExpiryInv(s: Sys, e: Event)
    requires ExpiryInv(s) && Enabled(s, e)
    ensures ExpiryInv(Next(s, e))
  {
    forall id | id in Next(s, e).rows
      ensures ExpiryRow(Next(s, e).rows[id], Next(s, e).clock)
    {
      RowAfterStep(s, e, id);
      assert Next(s, e).clock == e.now;
      if Executed(s, e).Some? && id in s.rows {
        UpdateKeepsExpiry(Executed(s, e).value, id, s.rows[id], s.clock, e.now);
      }
    }
  }

  /** pre_auth and setup_2fa sessions expire 15 minutes after creation, and no session has
      more than seven days left, under any interleaving. */
  lemma {:induction false} ExpiryIsBounded(clock: Time, es: seq<Event>)
    ensures ExpiryInv(Run(Start(clock), es))
    ensures var s := Run(Start(clock), es);
            forall id | id in s.rows ::
              && s.rows[id].expiresAt <= s.clock + 604800
              && (s.rows[id].state in {PreAuth, Setup2FA} ==> s.rows[id].expiresAt == s.rows[id].createdAt + 900)
  {
    if es != [] {
      ExpiryIsBounded(clock, es[..|es| - 1]);
      var before := Run(Start(clock), es[..|es| - 1]);
      if Enabled(before, es[|es| - 1]) { NextKeepsExpiryInv(before, es[|es| - 1]); }
    }
  }

  /** So a password session whose second factor does not come is refused after 15 minutes. */
  lemma HalfWaySessionsEnd(clock: Time, es: seq<Event>, id: SessionId, now: Time)
    requires var s := Run(Start(clock), es);
             id in s.rows && s.rows[id].state in {PreAuth, Setup2FA} && now >= s.rows[id].createdAt + 900
    ensures ReadGate(Run(Start(clock), es).rows, id, now) == Refused
  {
    ExpiryIsBounded(clock, es);
  }

  // ---------- Where rows come from: any interleaving ----------

  /** The event logs `row` in under `id`. */
  ghost predicate LogsIn(e: Event, id: SessionId, row: Session) {
    match e
    case PasswordLogin(key, identity, _, now) =>
      key == id && row.identity == identity && row.login == Password && row.createdAt == now
    case OtherLogin(key, identity, login, now) =>
      key == id && row.identity == identity && row.login == login && row.createdAt == now
    case _ => false
  }

  /** Every session belongs to the identity that logged in to it, and keeps the method and the
      instant of that login. */
  lemma {:induction false} SessionsComeFromLogins(clock: Time, es: seq<Event>, id: SessionId) returns (k: nat)
    requires id in Run(Start(clock), es).rows
    ensures k < |es| && LogsIn(es[k], id, Run(Start(clock), es).rows[id])
  {
    var front, e := es[..|es| - 1], es[|es| - 1];
    var before := Run(Start(clock), front);
    if Enabled(before, e) {
      RowAfterStep(before, e, id);
      if Created(e).Some? && e.id == id {
        return |es| - 1;
      }
      if Executed(before, e).Some? { ColumnsHaveTheirWriters(Executed(before, e).value, id, before.rows[id]); }
    }
    k := SessionsComeFromLogins(clock, front, id);
    assert front[k] == es[k];
  }

  // ---------- Leaving the half-way states: any interleaving ----------

  predicate HalfWay(s: State) {
    s == PreAuth || s == Setup2FA
  }

  /** Half-way states are never entered again, so a request in flight on such a session has
      seen the same state. */
  ghost predicate HalfWayInv(s: Sys) {
    forall r | r in s.pending && s.pending[r].id in s.rows && HalfWay(s.rows[s.pending[r].id].state) ::
      s.pending[r].checked == s.rows[s.pending[r].id].state
  }

  lemma {:induction false} UpdateLeavesHalfWay(st: Statement, key: SessionId, s: Session)
    ensures HalfWay(UpdateRow(st, key, s).state) ==> UpdateRow(st, key, s).state == s.state
  {
  }

  lemma {:induction false} NextKeepsHalfWayInv(s: Sys, e: Event)
    requires FactorInv(s) && HalfWayInv(s) && Enabled(s, e)
    ensures HalfWayInv(Next(s, e))
  {
    var t := Next(s, e);
    forall r | r in t.pending && t.pending[r].id in t.rows && HalfWay(t.rows[t.pending[r].id].state)
      ensures t.pending[r].checked == t.rows[t.pending[r].id].state
    {
      var id := t.pending[r].id;
      PendingAfterStep(s, e, r);
      RowAfterStep(s, e, id);
      if id in s.rows && Executed(s, e).Some? { UpdateLeavesHalfWay(Executed(s, e).value, id, s.rows[id]); }
    }
  }

  lemma {:induction false} RunKeepsHalfWayInv(clock: Time, es: seq<Event>)
    ensures HalfWayInv(Run(Start(clock), es))
  {
    if es != [] {
      var front := es[..|es| - 1];
      RunKeepsHalfWayInv(clock, front);
      RunKeepsFactorInv(clock, front);
      if Enabled(Run(Start(clock), front), es[|es| - 1]) {
        NextKeepsHalfWayInv(Run(Start(clock), front), es[|es| - 1]);
      }
    }
  }

  /** Only a handler's update changes the state of a session. */
  lemma {:induction false} HandlerChangesState(s: Sys, e: Event, id: SessionId)
    requires Enabled(s, e) && s.rows.Keys <= s.used && id in s.rows && id in Next(s, e).rows
    requires Next(s, e).rows[id].state != s.rows[id].state
    ensures e.Continue? && e.ok && s.pending[e.req].id == id && s.pending[e.req].phase == Handling
    ensures var p := s.pending[e.req];
            Effect(p, e.now).Some? && Next(s, e).rows[id] == UpdateRow(Effect(p, e.now).value, id, s.rows[id])
  {
    RowAfterStep(s, e, id);
    ColumnsHaveTheirWriters(Executed(s, e).value, id, s.rows[id]);
  }

  lemma {:induction false} UpdateFromHalfWay(p: Pending, now: Time, row: Session)
    requires p.phase == Handling && Allowed(p.op, p.checked) && p.checked == row.state && HalfWay(row.state)
    requires Effect(p, now).Some?
    ensures var t := UpdateRow(Effect(p, now).value, p.id, row);
            && (row.state == PreAuth ==> p.op.Verify2FA? && t.secondFactor == Some(p.op.factor))
            && (row.state == Setup2FA ==> p.op == ConfirmEnroll && t.secondFactor == Some(Totp))
            && t.state == PreTenant && t.expiresAt == now + 604800
  {
  }

  /** Under any interleaving, a session leaves pre_auth only by a second factor that has been
      verified, and setup_2fa only by a confirmed enrolment; it then is in pre_tenant with that
      factor and seven days to go. */
  lemma {:induction false} HalfWayExit(clock: Time, es: seq<Event>, e: Event, id: SessionId)
    requires var s := Run(Start(clock), es);
             && Enabled(s, e) && id in s.rows && id in Next(s, e).rows && HalfWay(s.rows[id].state)
             && Next(s, e).rows[id].state != s.rows[id].state
    ensures var s := Run(Start(clock), es);
            && e.Continue? && e.ok && s.pending[e.req].id == id
            && var p, row := s.pending[e.req], Next(s, e).rows[id];
            && (s.rows[id].state == PreAuth ==> p.op.Verify2FA? && row.secondFactor == Some(p.op.factor))
            && (s.rows[id].state == Setup2FA ==> p.op == ConfirmEnroll && row.secondFactor == Some(Totp))
            && row.state == PreTenant && row.expiresAt == e.now + 604800
  {
    var s := Run(Start(clock), es);
    RunKeepsHalfWayInv(clock, es);
    RunKeepsFactorInv(clock, es);
    HandlerChangesState(s, e, id);
    assert FactorReady(s.rows, s.pending[e.req]);
    UpdateFromHalfWay(s.pending[e.req], e.now, s.rows[id]);
  }

  // ---------- What a tenant session carries: any interleaving ----------

  datatype Selection = Selection(tenant: TenantId, user: UserId, subOrg: Option<nat>, role: string)

  /** The last completed tenant selection of the session, with the sub-org as changed since for
      its user while the session was live. */
  function LastSelection(clock: Time, es: seq<Event>, id: SessionId): Option<Selection> {
    if es == [] then None
    else
      var front, e := es[..|es| - 1], es[|es| - 1];
      var before, last := Run(Start(clock), front), LastSelection(clock, front, id);
      if !Enabled(before, e) then last
      else if e.Continue? && e.ok then AfterCommit(before.pending[e.req], id, last)
      else if e.Maintain? && id in before.rows then AfterMaintenance(e.st, before.rows[id], last)
      else last
  }

  function AfterCommit(p: Pending, id: SessionId, last: Option<Selection>): Option<Selection> {
    if p.phase == Handling && p.id == id && p.op.SelectTenant?
    then Some(Selection(p.op.tenant, p.op.user, p.op.subOrg, p.op.role)) else last
  }

  function AfterMaintenance(st: Statement, row: Session, last: Option<Selection>): Option<Selection> {
    if st.UpdateSubOrg? && last.Some? && last.value.user == st.user && row.revokedAt == None && st.now < row.expiresAt
    then Some(last.value.(subOrg := st.subOrg)) else last
  }

  ghost predicate CarriesSelection(row: Session, last: Option<Selection>) {
    && (row.state == Authenticated && !row.superAdmin ==> row.tenant.Some?)
    && (row.tenant.Some? <==> row.user.Some?)
    && (row.tenant.Some? ==>
          && last.Some? && row.tenant == Some(last.value.tenant) && row.user == Some(last.value.user)
          && row.role == Some(last.value.role) && row.subOrg == last.value.subOrg)
  }

  lemma {:induction false} CommitCarries(p: Pending, now: Time, id: SessionId, row: Session, last: Option<Selection>)
    requires CarriesSelection(row, last)
    ensures var t := if Effect(p, now).Some? then UpdateRow(Effect(p, now).value, id, row) else row;
            CarriesSelection(t, AfterCommit(p, id, last))
  {
  }

  lemma {:induction false} MaintenanceCarries(st: Statement, id: SessionId, row: Session, last: Option<Selection>)
    requires CarriesSelection(row, last) && Maintenance(st)
    ensures CarriesSelection(UpdateRow(st, id, row), AfterMaintenance(st, row, last))
  {
  }

  /** Under any interleaving, an authenticated session without the super-admin flag, and any other
      with a tenant, carries the tenant, user and role of its last completed tenant selection, and
      that selection's sub-org or the one its user has been moved to since. */
  lemma {:induction false} SessionCarriesItsSelection(clock: Time, es: seq<Event>, id: SessionId)
    requires id in Run(Start(clock), es).rows
    ensures CarriesSelection(Run(Start(clock), es).rows[id], LastSelection(clock, es, id))
  {
    var front, e := es[..|es| - 1], es[|es| - 1];
    var s := Run(Start(clock), front);
    if !Enabled(s, e) {
      SessionCarriesItsSelection(clock, front, id);
    } else {
      RowAfterStep(s, e, id);
      if id in s.rows && !(Created(e).Some? && e.id == id) {
        SessionCarriesItsSelection(clock, front, id);
        var row, last := s.rows[id], LastSelection(clock, front, id);
        if e.Continue? && e.ok {
          CommitCarries(s.pending[e.req], e.now, id, row, last);
        } else if e.Maintain? {
          MaintenanceCarries(e.st, id, row, last);
        }
      }
    }
  }

  // ---------- Revocation is final: any interleaving ----------

  ghost predicate Dead(s: Sys, id: SessionId) {
    id in s.used && (id in s.rows ==> s.rows[id].revokedAt.Some?)
  }

  lemma RevocationIsKept(st: Statement, key: SessionId, s: Session)
    ensures s.revokedAt.Some? ==> UpdateRow(st, key, s).revokedAt == s.revokedAt
  {
  }

  /** A revoked session is never valid again, whatever happens afterwards; deleting the row
      does not help, because ids are not reused. */
  lemma {:induction false} RevokedForever(s: Sys, es: seq<Event>, id: SessionId, now: Time)
    requires Dead(s, id)
    ensures Dead(Run(s, es), id) && GetValid(Run(s, es).rows, id, now).None?
  {
    if es != [] {
      var before, e := Run(s, es[..|es| - 1]), es[|es| - 1];
      RevokedForever(s, es[..|es| - 1], id, now);
      if Enabled(before, e) && id in Next(before, e).rows {
        RowAfterStep(before, e, id);
        if Executed(before, e).Some? { RevocationIsKept(Executed(before, e).value, id, before.rows[id]); }
      }
    }
  }

  // ---------- An authenticated session was pre_tenant before: any interleaving ----------

  ghost predicate WasPreTenant(clock: Time, es: seq<Event>, id: SessionId) {
    exists k | 0 <= k <= |es| :: PreTenantIn(Run(Start(clock), es[..k]), id)
  }

  ghost predicate PreTenantIn(s: Sys, id: SessionId) {
    id in s.rows && s.rows[id].state == PreTenant
  }

  lemma WasPreTenantExtends(clock: Time, es: seq<Event>, e: Event, id: SessionId)
    requires WasPreTenant(clock, es, id)
    ensures WasPreTenant(clock, es + [e], id)
  {
    var k :| 0 <= k <= |es| && PreTenantIn(Run(Start(clock), es[..k]), id);
    assert (es + [e])[..k] == es[..k];
  }

  predicate SelectOp(op: Op) {
    op.SelectTenant? || op.SelectAdmin?
  }

  /** Every authenticated session was in pre_tenant at an earlier point of the run. */
  lemma {:induction false} AuthenticatedWasPreTenant(clock: Time, es: seq<Event>)
    ensures var s := Run(Start(clock), es);
            && (forall id | id in s.rows && s.rows[id].state == Authenticated :: WasPreTenant(clock, es, id))
            && (forall r | r in s.pending && Selecting(s.pending[r]) :: WasPreTenant(clock, es, s.pending[r].id))
  {
    if es != [] {
      var front, e := es[..|es| - 1], es[|es| - 1];
      AuthenticatedWasPreTenant(clock, front);
      RunKeepsFactorInv(clock, front);
      assert es == front + [e];
      var before, s := Run(Start(clock), front), Run(Start(clock), es);
      forall id | id in s.rows && s.rows[id].state == Authenticated
        ensures WasPreTenant(clock, es, id)
      {
        if Enabled(before, e) {
          BecomingAuthenticated(before, e, id);
        }
        WasPreTenantExtends(clock, front, e, id);
      }
      forall r | r in s.pending && Selecting(s.pending[r])
        ensures WasPreTenant(clock, es, s.pending[r].id)
      {
        var id := s.pending[r].id;
        if Enabled(before, e) {
          PendingAfterStep(before, e, r);
        }
        if r !in before.pending {
          assert front == front[..|front|] && PreTenantIn(before, id);
          assert WasPreTenant(clock, front, id);
        } else {
          assert Selecting(before.pending[r]);
        }
        WasPreTenantExtends(clock, front, e, id);
      }
    }
  }

  /** A selection that has been, or will be, let through its gate. */
  predicate Selecting(p: Pending) {
    SelectOp(p.op) && Allowed(p.op, p.checked)
  }

  /** Only a pending selection makes a session authenticated. */
  lemma BecomingAuthenticated(s: Sys, e: Event, id: SessionId)
    requires FactorInv(s)
    requires Enabled(s, e) && id in Next(s, e).rows && Next(s, e).rows[id].state == Authenticated
    ensures id in s.rows
    ensures s.rows[id].state == Authenticated ||
            exists r | r in s.pending :: s.pending[r].id == id && Selecting(s.pending[r])
  {
    RowAfterStep(s, e, id);
    if s.rows[id].state != Authenticated {
      assert e.Continue? && s.pending[e.req].id == id && FactorReady(s.rows, s.pending[e.req]);
      assert Selecting(s.pending[e.req]);
    }
  }
}
