/** The context of a session and its changes. Statements about `RunSerial` need one request
    in flight per session; the schedules at the end show what goes wrong without. */
module SessionContext {
  import opened Wrappers
  import opened Clock
  import opened Sessions
  import opened SessionSystem
  import opened SessionLifecycle

  // ---------- Context and its changes: one request in flight per session ----------

  /** Half-way states carry no context; authenticated carries a tenant and user, or the
      super-admin flag, and not both. */
  ghost predicate WellShaped(s: Session) {
    if s.state == Authenticated then
      (s.tenant.Some? && s.user.Some? && !s.superAdmin) || (s.tenant.None? && s.user.None? && s.superAdmin)
    else s.tenant.None? && s.user.None? && !s.superAdmin
  }

  /** Whether the last completed context change of the session was a selection. */
  function InContext(log: seq<Entry>, id: SessionId): bool {
    if log == [] then false
    else if log[|log| - 1].id == id then log[|log| - 1].select
    else InContext(log[..|log| - 1], id)
  }

  /** No selection is recorded while the session is in a context. */
  ghost predicate Separated(log: seq<Entry>) {
    forall k | 0 <= k < |log| && log[k].select :: !InContext(log[..k], log[k].id)
  }

  ghost predicate SerialInv(s: Sys) {
    && LogInv(s)
    && (forall id | id in s.rows :: id in s.used && RowFits(s.rows[id], s.log, id))
    && (forall r | r in s.pending :: PendingFits(s, s.pending[r]))
    && (forall q, r | q in s.pending && r in s.pending && s.pending[q].id == s.pending[r].id :: q == r)
  }

  ghost predicate LogInv(s: Sys) {
    Separated(s.log) && forall k | 0 <= k < |s.log| :: s.log[k].id in s.used
  }

  /** The row is well shaped, and is authenticated exactly while the log says so. */
  ghost predicate RowFits(s: Session, log: seq<Entry>, id: SessionId) {
    WellShaped(s) && (s.state == Authenticated <==> InContext(log, id))
  }

  /** A request in flight still finds the state its gate saw. */
  ghost predicate PendingFits(s: Sys, p: Pending) {
    && p.id in s.used && (p.phase == Handling ==> Allowed(p.op, p.checked))
    && (p.id in s.rows ==> s.rows[p.id].state == p.checked)
    && (Selecting(p) ==> !InContext(s.log, p.id))
  }

  lemma {:induction false} FreshIsOutOfContext(log: seq<Entry>, id: SessionId)
    requires forall k | 0 <= k < |log| :: log[k].id != id
    ensures !InContext(log, id)
  {
    if log != [] { FreshIsOutOfContext(log[..|log| - 1], id); }
  }

  lemma LogStep(log: seq<Entry>, x: Entry)
    requires Separated(log) && (x.select ==> !InContext(log, x.id))
    ensures Separated(log + [x])
    ensures forall id :: InContext(log + [x], id) == if id == x.id then x.select else InContext(log, id)
  {
    assert (log + [x])[..|log|] == log;
    assert forall k | 0 <= k < |log| :: (log + [x])[..k] == log[..k];
  }

  /** Only the handler's update changes a state or a context. */
  lemma OtherStatementsKeepShape(st: Statement, key: SessionId, s: Session)
    requires Maintenance(st) || st.TouchLastActive?
    ensures var t := UpdateRow(st, key, s);
            t.state == s.state && t.tenant == s.tenant && t.user == s.user && t.superAdmin == s.superAdmin
  {
  }

  /** The commit of a request that still finds the state its gate saw. */
  lemma CommitKeepsShape(p: Pending, now: Time, s: Session)
    requires WellShaped(s) && s.state == p.checked && Allowed(p.op, p.checked)
    requires Update(p.id, p.op, p.checked, now).Some?
    ensures var t := UpdateRow(Update(p.id, p.op, p.checked, now).value, p.id, s);
            && WellShaped(t)
            && t.state == (if SelectOp(p.op) then Authenticated else PreTenant)
            && (!p.op.SwitchContext? ==> s.state != Authenticated)
  {
  }

  /** A step that does not commit a handler's update. */
  predicate Quiet(s: Sys, e: Event)
    requires Enabled(s, e)
  {
    e.Continue? ==> var p := s.pending[e.req]; !e.ok || p.phase != Handling || Effect(p, e.now).None?
  }

  lemma QuietStatement(s: Sys, e: Event)
    requires Enabled(s, e) && Quiet(s, e)
    ensures Executed(s, e).Some? ==> Maintenance(Executed(s, e).value) || Executed(s, e).value.TouchLastActive?
    ensures Next(s, e).log == s.log && s.used <= Next(s, e).used
  {
  }

  lemma QuietRow(s: Sys, e: Event, id: SessionId)
    requires SerialInv(s) && Enabled(s, e) && Quiet(s, e) && id in Next(s, e).rows
    ensures id in Next(s, e).used && RowFits(Next(s, e).rows[id], s.log, id)
    ensures id in s.used ==> id in s.rows && Next(s, e).rows[id].state == s.rows[id].state
  {
    RowAfterStep(s, e, id);
    QuietStatement(s, e);
    if Created(e).Some? && id == e.id {
      FreshIsOutOfContext(s.log, id);
    } else {
      assert RowFits(s.rows[id], s.log, id);
      if Executed(s, e).Some? {
        OtherStatementsKeepShape(Executed(s, e).value, id, s.rows[id]);
      }
    }
  }

  lemma QuietPending(s: Sys, e: Event, r: RequestId)
    requires SerialInv(s) && Enabled(s, e) && Quiet(s, e) && r in Next(s, e).pending
    ensures PendingFits(Next(s, e), Next(s, e).pending[r])
    ensures r in s.pending ==> s.pending[r].id == Next(s, e).pending[r].id
    ensures r !in s.pending ==> e.Begin? && e.req == r && Next(s, e).pending[r].id == e.id
  {
    var p := Next(s, e).pending[r];
    PendingAfterStep(s, e, r);
    QuietStatement(s, e);
    if r in s.pending {
      assert PendingFits(s, s.pending[r]);
    } else {
      assert p.id in s.rows && RowFits(s.rows[p.id], s.log, p.id) && p.checked == s.rows[p.id].state;
    }
    if p.id in Next(s, e).rows {
      QuietRow(s, e, p.id);
    }
  }

  lemma QuietStepKeepsSerialInv(s: Sys, e: Event)
    requires SerialInv(s) && Enabled(s, e) && Quiet(s, e) && !Overlaps(s, e)
    ensures SerialInv(Next(s, e))
  {
    var t := Next(s, e);
    QuietStatement(s, e);
    forall id | id in t.rows
      ensures id in t.used && RowFits(t.rows[id], t.log, id)
    {
      QuietRow(s, e, id);
    }
    forall r | r in t.pending
      ensures PendingFits(t, t.pending[r])
    {
      QuietPending(s, e, r);
    }
    forall q, r | q in t.pending && r in t.pending && t.pending[q].id == t.pending[r].id
      ensures q == r
    {
      QuietPending(s, e, q);
      QuietPending(s, e, r);
    }
  }

  /** What a commit does, by components. */
  lemma CommitEffect(s: Sys, e: Event)
    requires Enabled(s, e) && !Quiet(s, e)
    ensures var t, p := Next(s, e), s.pending[e.req];
            && Effect(p, e.now) == Update(p.id, p.op, p.checked, e.now)
            && t.rows == Exec(s.rows, Effect(p, e.now).value) && t.used == s.used && t.pending == s.pending - {e.req}
            && t.log == if ContextOp(p.op) then s.log + [Entry(p.id, SelectOp(p.op))] else s.log
    ensures var t, p := Next(s, e), s.pending[e.req];
            forall id | id in s.rows && id != p.id :: t.rows[id] == s.rows[id]
  {
  }

  lemma CommitRow(s: Sys, e: Event, id: SessionId)
    requires SerialInv(s) && Enabled(s, e) && !Quiet(s, e) && id in Next(s, e).rows
    ensures RowFits(Next(s, e).rows[id], Next(s, e).log, id)
  {
    var p := s.pending[e.req];
    CommitEffect(s, e);
    assert PendingFits(s, p) && RowFits(s.rows[id], s.log, id);
    if ContextOp(p.op) {
      LogStep(s.log, Entry(p.id, SelectOp(p.op)));
    }
    if id == p.id {
      CommitKeepsShape(p, e.now, s.rows[id]);
    }
  }

  lemma CommitKeepsSerialInv(s: Sys, e: Event)
    requires SerialInv(s) && Enabled(s, e) && !Quiet(s, e)
    ensures SerialInv(Next(s, e))
  {
    var t, p := Next(s, e), s.pending[e.req];
    CommitEffect(s, e);
    assert PendingFits(s, p);
    if ContextOp(p.op) {
      LogStep(s.log, Entry(p.id, SelectOp(p.op)));
    }
    forall id | id in t.rows
      ensures id in t.used && RowFits(t.rows[id], t.log, id)
    {
      CommitRow(s, e, id);
    }
    forall r | r in t.pending
      ensures PendingFits(t, t.pending[r])
    {
      assert PendingFits(s, s.pending[r]) && t.pending[r] == s.pending[r] && s.pending[r].id != p.id;
    }
  }

  lemma {:induction false} RunKeepsSerialInv(clock: Time, es: seq<Event>)
    ensures SerialInv(RunSerial(Start(clock), es))
  {
    if es != [] {
      var before, e := RunSerial(Start(clock), es[..|es| - 1]), es[|es| - 1];
      RunKeepsSerialInv(clock, es[..|es| - 1]);
      if Enabled(before, e) && !Overlaps(before, e) {
        if Quiet(before, e) {
          QuietStepKeepsSerialInv(before, e);
        } else {
          CommitKeepsSerialInv(before, e);
        }
      }
    }
  }

  /** With one request in flight per session, every reachable session is well shaped; as a
      serial schedule is a schedule, its expiry and second factor are in order too. */
  lemma ContextMatchesState(clock: Time, es: seq<Event>, id: SessionId)
    requires id in RunSerial(Start(clock), es).rows
    ensures var s := RunSerial(Start(clock), es);
            WellShaped(s.rows[id]) && ExpiryRow(s.rows[id], s.clock) && FactorSafe(s.rows[id])
  {
    RunKeepsSerialInv(clock, es);
    var fs := SerialIsRun(Start(clock), es);
    ExpiryIsBounded(clock, fs);
    RunKeepsFactorInv(clock, fs);
  }

  /** ... and between two selections on a session there is a switch. */
  lemma SelectionsAreSeparatedBySwitch(clock: Time, es: seq<Event>, i: nat, j: nat)
    requires var log := RunSerial(Start(clock), es).log;
             i < j < |log| && log[i].select && log[j].select && log[i].id == log[j].id
    ensures var log := RunSerial(Start(clock), es).log;
            exists k | i < k < j :: log[k].id == log[i].id && !log[k].select
  {
    var log := RunSerial(Start(clock), es).log;
    RunKeepsSerialInv(clock, es);
    LeftContext(log, i, j);
  }

  lemma {:induction false} LeftContext(log: seq<Entry>, i: nat, j: nat)
    requires i < j <= |log| && log[i].select && !InContext(log[..j], log[i].id)
    ensures exists k | i < k < j :: log[k].id == log[i].id && !log[k].select
    decreases j
  {
    var front := log[..j];
    assert front[..j - 1] == log[..j - 1];
    if front[j - 1].id != log[i].id {
      LeftContext(log, i, j - 1);
    } else {
      assert !log[j - 1].select;
      assert i < j - 1;
    }
  }

  // ---------- Why one request in flight matters ----------

  /** Under any interleaving, a commit that meets a well-shaped row leaves it well shaped
      unless it adds the super-admin flag to a tenant context, or a late second factor sends
      an authenticated session back to pre_tenant. */
  lemma CommitKeepsShapeIff(p: Pending, now: Time, s: Session)
    requires WellShaped(s) && Update(p.id, p.op, p.checked, now).Some?
    ensures WellShaped(UpdateRow(Update(p.id, p.op, p.checked, now).value, p.id, s)) <==>
            && !(p.op.SelectAdmin? && s.tenant.Some?)
            && !((p.op.Verify2FA? || p.op.ConfirmEnroll?) && s.state == Authenticated)
  {
  }

  // ---------- Schedules of one session, step by step ----------

  /** After the first k steps, session 1 is `row` and `pending` are the requests in flight. */
  ghost predicate At(es: seq<Event>, k: nat, row: Session, pending: map<RequestId, Pending>)
    requires k <= |es|
  {
    var s := Run(Start(0), es[..k]);
    1 in s.rows && s.rows[1] == row && s.pending == pending && s.clock == if k == 0 then 0 else es[k - 1].now
  }

  lemma LoginStep(es: seq<Event>)
    requires es != [] && Created(es[0]).Some? && es[0].id == 1 && Enabled(Start(0), es[0])
    ensures At(es, 1, Created(es[0]).value, map[])
  {
    assert es[..0] == [];
    RunOne(Start(0), es[..0], es[0]);
    assert es[..0] + [es[0]] == es[..0 + 1];
  }

  /** A request is read, and stays in flight as its reading says. */
  lemma BeginStep(es: seq<Event>, k: nat, row: Session, pending: map<RequestId, Pending>)
    requires 0 < k < |es| && At(es, k, row, pending) && es[k].Begin? && es[k].id == 1
    requires es[k].now >= es[k - 1].now && es[k].req !in pending && Live(row, es[k].now)
    requires es[k].now - row.lastActiveAt <= IDLE_TIMEOUT && Allowed(es[k].op, row.state)
    ensures var phase := if es[k].now - row.lastActiveAt > TOUCH_DEBOUNCE then Touching else Handling;
            At(es, k + 1, row, pending[es[k].req := Pending(1, es[k].op, row.state, es[k].now, phase)])
  {
    RunOne(Start(0), es[..k], es[k]);
    assert es[..k] + [es[k]] == es[..k + 1];
  }

  /** The touch or the update of a request in flight is executed. */
  lemma ContinueStep(es: seq<Event>, k: nat, row: Session, pending: map<RequestId, Pending>)
    requires 0 < k < |es| && At(es, k, row, pending) && es[k].Continue? && es[k].ok
    requires es[k].now >= es[k - 1].now && es[k].req in pending && pending[es[k].req].id == 1
    requires Effect(pending[es[k].req], es[k].now).Some?
    ensures var p := pending[es[k].req];
            At(es, k + 1, UpdateRow(Effect(p, es[k].now).value, 1, row),
               if Resume(p).Some? then pending[es[k].req := Resume(p).value] else pending - {es[k].req})
  {
    RunOne(Start(0), es[..k], es[k]);
    assert es[..k] + [es[k]] == es[..k + 1];
  }

  function TenantOp(tenant: TenantId, user: UserId): Op {
    Op.SelectTenant(tenant, user, None, "fso")
  }

  /** Both gates of a tenant and an admin selection run before either update. */
  function OverlappingSelections(tenant: TenantId, user: UserId): seq<Event> {
    [OtherLogin(1, 7, Passkey, 0),
     Begin(1, 1, TenantOp(tenant, user), 1), Begin(2, 1, SelectAdmin, 2),
     Continue(1, true, 3), Continue(2, true, 4)]
  }

  /** Such a run happens: it leaves a session carrying a tenant and the flag at once. */
  lemma OverlappingSelectionsBreakShape(tenant: TenantId, user: UserId)
    ensures var s := Run(Start(0), OverlappingSelections(tenant, user));
            1 in s.rows && s.rows[1].state == Authenticated && s.rows[1].tenant == Some(tenant) && s.rows[1].superAdmin
  {
    var es := OverlappingSelections(tenant, user);
    var row := NewSession(7, Passkey, PreTenant, 0);
    var p1 := Pending(1, TenantOp(tenant, user), PreTenant, 1, Handling);
    var p2 := Pending(1, Op.SelectAdmin, PreTenant, 2, Handling);
    LoginStep(es);
    BeginStep(es, 1, row, map[]);
    BeginStep(es, 2, row, map[1 := p1]);
    ContinueStep(es, 3, row, map[1 := p1][2 := p2]);
    var row' := UpdateRow(Effect(p1, 3).value, 1, row);
    ContinueStep(es, 4, row', map[1 := p1][2 := p2] - {1});
    assert es[..5] == es;
  }

  /** Two codes for one password session are checked at once; the second update comes after a
      tenant has been selected. */
  function LateSecondFactor(factor: Factor, tenant: TenantId, user: UserId): seq<Event> {
    [PasswordLogin(1, 7, true, 0),
     Begin(1, 1, Verify2FA(factor), 1), Begin(2, 1, Verify2FA(factor), 2), Continue(1, true, 3),
     Begin(3, 1, TenantOp(tenant, user), 4), Continue(3, true, 5),
     Continue(2, true, 6)]
  }

  /** The first code has been checked; the second request is still in flight. */
  lemma FirstCodeChecked(factor: Factor, es: seq<Event>, row: Session, late: Pending)
    requires |es| >= 4 && es[0] == PasswordLogin(1, 7, true, 0) && es[3] == Continue(1, true, 3)
    requires es[1] == Begin(1, 1, Verify2FA(factor), 1) && es[2] == Begin(2, 1, Verify2FA(factor), 2)
    requires late == Pending(1, Verify2FA(factor), PreAuth, 2, Handling)
    requires row == NewSession(7, Password, PreAuth, 0)
                      .(secondFactor := Some(factor), state := PreTenant, expiresAt := 3 + SESSION_DURATION)
    ensures At(es, 4, row, map[2 := late])
  {
    var row0, first := NewSession(7, Password, PreAuth, 0), late.(readAt := 1);
    LoginStep(es);
    BeginStep(es, 1, row0, map[]);
    BeginStep(es, 2, row0, map[1 := first]);
    ContinueStep(es, 3, row0, map[1 := first, 2 := late]);
    assert map[1 := first, 2 := late] - {1} == map[2 := late];
  }

  /** Such a run happens too: it leaves a pre_tenant session that carries a tenant. */
  lemma LateSecondFactorBreaksShape(factor: Factor, tenant: TenantId, user: UserId)
    ensures var s := Run(Start(0), LateSecondFactor(factor, tenant, user));
            1 in s.rows && s.rows[1].state == PreTenant && s.rows[1].tenant == Some(tenant) &&
            s.rows[1].user == Some(user)
  {
    var es := LateSecondFactor(factor, tenant, user);
    var late := Pending(1, Verify2FA(factor), PreAuth, 2, Handling);
    var select := Pending(1, TenantOp(tenant, user), PreTenant, 4, Handling);
    var row1 := NewSession(7, Password, PreAuth, 0)
                  .(secondFactor := Some(factor), state := PreTenant, expiresAt := 3 + SESSION_DURATION);
    var row2 := row1.(tenant := Some(tenant), user := Some(user), state := Authenticated, role := Some("fso"),
                      expiresAt := 5 + SESSION_DURATION);
    FirstCodeChecked(factor, es, row1, late);
    BeginStep(es, 4, row1, map[2 := late]);
    ContinueStep(es, 5, row1, map[2 := late, 3 := select]);
    assert map[2 := late, 3 := select] - {3} == map[2 := late];
    ContinueStep(es, 6, row2, map[2 := late]);
    assert es[..7] == es;
  }

  /** A password login without a second factor is enrolled and selects a tenant. */
  function FirstLogin(tenant: TenantId, user: UserId): seq<Event> {
    [PasswordLogin(1, 7, false, 0), Begin(1, 1, ConfirmEnroll, 10), Continue(1, true, 20),
     Begin(2, 1, TenantOp(tenant, user), 30), Continue(2, true, 40)]
  }

  /** The enrolment promotes the setup_2fa session, and the selection completes the login. */
  lemma {:induction false} FirstLoginCompletes(tenant: TenantId, user: UserId)
    ensures var es := FirstLogin(tenant, user);
            && At(es, 1, NewSession(7, Password, Setup2FA, 0), map[])
            && (var s := Run(Start(0), es[..3]);
                && 1 in s.rows && s.rows[1].state == PreTenant && s.rows[1].secondFactor == Some(Totp)
                && s.rows[1].expiresAt == 604820)
            && (var s := Run(Start(0), es);
                && 1 in s.rows && s.rows[1].state == Authenticated && s.rows[1].tenant == Some(tenant)
                && s.rows[1].user == Some(user) && s.rows[1].expiresAt == 604840)
  {
    var es := FirstLogin(tenant, user);
    var row := NewSession(7, Password, Setup2FA, 0);
    var enroll := Pending(1, ConfirmEnroll, Setup2FA, 10, Handling);
    var row1 := row.(secondFactor := Some(Totp), state := PreTenant, expiresAt := 604820);
    var select := Pending(1, TenantOp(tenant, user), PreTenant, 30, Handling);
    LoginStep(es);
    BeginStep(es, 1, row, map[]);
    ContinueStep(es, 2, row, map[1 := enroll]);
    assert map[1 := enroll] - {1} == map[];
    BeginStep(es, 3, row1, map[]);
    ContinueStep(es, 4, row1, map[2 := select]);
    assert es[..5] == es;
  }

  /** A completed selection gives the session seven days, whatever was left of them; a switch
      gives no time, keeps role and sub-org in the row, and takes everything else of the
      context. */
  lemma SelectionsRenew(p: Pending, now: Time, s: Session)
    requires Update(p.id, p.op, p.checked, now).Some?
    ensures var t := UpdateRow(Update(p.id, p.op, p.checked, now).value, p.id, s);
            && (SelectOp(p.op) ==> t.state == Authenticated && t.expiresAt == now + 604800)
            && (p.op.SelectAdmin? ==> t == s.(superAdmin := true, state := t.state, expiresAt := t.expiresAt))
            && (p.op.SwitchContext? ==>
                  t == s.(tenant := None, user := None, superAdmin := false, state := PreTenant))
  {
  }

  // ---------- A session outlives the clean-up age ----------

  const VISIT_GAP := 20 * MINUTE

  /** Twenty minutes later the user switches context and selects the tenant again, which
      renews the expiry. */
  function Renewal(at: Time): seq<Event> {
    [Begin(1, 1, SwitchContext, at), Continue(1, true, at), Continue(1, true, at),
     Begin(2, 1, TenantOp(1, 1), at), Continue(2, true, at)]
  }

  /** A login at 0, a selection, and n renewals. */
  function Renewals(n: nat): seq<Event> {
    if n == 0 then [OtherLogin(1, 7, Passkey, 0), Begin(2, 1, TenantOp(1, 1), 0), Continue(2, true, 0)]
    else Renewals(n - 1) + Renewal(n * VISIT_GAP)
  }

  /** The session after a selection at `at`. */
  function RenewedAt(at: Time): Session {
    Session(7, Passkey, Authenticated, Some(1), Some(1), None, Some("fso"), None, false,
            0, at, at + SESSION_DURATION, None)
  }

  /** The first three steps of a renewal: the touch, and the switch. */
  lemma SwitchRuns(es: seq<Event>, k: nat, at: Time, now: Time, row: Session)
    requires 0 < k && |es| == k + 5 && now == at + VISIT_GAP && es[k - 1].now == at
    requires es[k] == Begin(1, 1, SwitchContext, now)
    requires es[k + 1] == Continue(1, true, now) && es[k + 2] == Continue(1, true, now)
    requires At(es, k, RenewedAt(at), map[])
    requires row == RenewedAt(at).(lastActiveAt := now, tenant := None, user := None, state := PreTenant)
    ensures At(es, k + 3, row, map[])
  {
    var touching := Pending(1, Op.SwitchContext, Authenticated, now, Touching);
    var handling := Pending(1, Op.SwitchContext, Authenticated, now, Handling);
    BeginStep(es, k, RenewedAt(at), map[]);
    ContinueStep(es, k + 1, RenewedAt(at), map[1 := touching]);
    assert map[1 := touching][1 := handling] == map[1 := handling];
    ContinueStep(es, k + 2, RenewedAt(at).(lastActiveAt := now), map[1 := handling]);
    assert map[1 := handling] - {1} == map[];
  }

  lemma RenewalRuns(es: seq<Event>, k: nat, at: Time)
    requires 0 < k && |es| == k + 5 && es[k..] == Renewal(at + VISIT_GAP) && es[k - 1].now == at
    requires At(es, k, RenewedAt(at), map[])
    ensures At(es, k + 5, RenewedAt(at + VISIT_GAP), map[])
  {
    var now := at + VISIT_GAP;
    var r := Renewal(now);
    assert es[k] == r[0] && es[k + 1] == r[1] && es[k + 2] == r[2] && es[k + 3] == r[3] && es[k + 4] == r[4];
    var row := RenewedAt(at).(lastActiveAt := now, tenant := None, user := None, state := PreTenant);
    SwitchRuns(es, k, at, now, row);
    BeginStep(es, k + 3, row, map[]);
    var select := Pending(1, TenantOp(1, 1), PreTenant, now, Handling);
    ContinueStep(es, k + 4, row, map[2 := select]);
    assert map[2 := select] - {2} == map[];
  }

  lemma FirstSelection(es: seq<Event>)
    requires es == Renewals(0)
    ensures At(es, 3, RenewedAt(0), map[])
  {
    var row := NewSession(7, Passkey, PreTenant, 0);
    LoginStep(es);
    BeginStep(es, 1, row, map[]);
    var select := Pending(1, TenantOp(1, 1), PreTenant, 0, Handling);
    ContinueStep(es, 2, row, map[2 := select]);
    assert map[2 := select] - {2} == map[];
  }

  /** What has happened so far does not depend on what follows. */
  lemma AtPrefix(front: seq<Event>, es: seq<Event>, row: Session, pending: map<RequestId, Pending>)
    requires front != [] && |front| <= |es| && es[..|front|] == front && At(front, |front|, row, pending)
    ensures At(es, |front|, row, pending) && es[|front| - 1] == front[|front| - 1]
  {
    assert front[..|front|] == front;
  }

  lemma {:induction false} RenewalsRun(n: nat)
    ensures var es := Renewals(n);
            |es| == 3 + 5 * n && es[|es| - 1].now == n * VISIT_GAP && At(es, |es|, RenewedAt(n * VISIT_GAP), map[])
  {
    var es := Renewals(n);
    if n == 0 {
      FirstSelection(es);
    } else {
      var front, k := Renewals(n - 1), |Renewals(n - 1)|;
      RenewalsRun(n - 1);
      assert es[..k] == front && es[k..] == Renewal(n * VISIT_GAP);
      AtPrefix(front, es, RenewedAt((n - 1) * VISIT_GAP), map[]);
      RenewalRuns(es, k, (n - 1) * VISIT_GAP);
    }
  }

  /** A session kept alive by renewals, from 6481 of them on, is accepted more than 90 days
      after its creation, and the clean-up job then deletes it. */
  lemma RenewedSessionIsDeleted(n: nat)
    requires n >= 6481
    ensures var s := Run(Start(0), Renewals(n));
            && 1 in s.rows && s.rows[1].createdAt < s.clock - RETENTION
            && Live(s.rows[1], s.clock) && Accepts(s.rows, 1, s.clock)
            && Enabled(s, DeleteOldRows(s.clock)) && 1 !in Next(s, DeleteOldRows(s.clock)).rows
  {
    var es := Renewals(n);
    RenewalsRun(n);
    assert es[..|es|] == es;
  }
}
