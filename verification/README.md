# fastFSO verification

A Dafny model of the parts of fastFSO whose correctness depends on time, on whole runs, or
on the order of concurrent steps, with proofs of what those parts promise. `dafny verify
dfyconfig.toml` checks the whole project.

SQL tables are sequences or maps of rows and every `UPDATE` or `SELECT` of the cited code is
one exact step on them. Where it matters that the statements of a call can be interrupted
(sessions, clearance history, tokens, wrong logins), there are theorems about their
interleavings, and the uninterrupted call is the special case. Stores, writers and handlers
that change state are classes whose methods are proved equal to specification functions of
one uninterrupted call; the theorems are about runs of those functions and of their single
statements. Time is one clock in integer seconds and a calendar day is a UTC day of 86400
seconds. Database ids are insertion positions or fresh numbers. Password, second-factor and
mail outcomes are parameters that may take any value.

| file | what it models |
|---|---|
| `Clock.dfy` | the option type, the clock, calendar days |
| `Cadence.dfy` | the reminder CASE for one record over a run of passes |
| `Reminders.dfy` | the reminder pass over a table: join, grouping, notify, mark |
| `ClearanceHistory.dfy` | clearance history, call by call, and the as-of join of the audit export |
| `ClearanceStatements.dfy` | the same, statement by statement, for calls that overlap or stop early |
| `VisitAuthorization.dfy` | DD254 suggestions and the export's `auth_confirmed` |
| `Sessions.dfy` | the sessions table and the session gate |
| `SessionSystem.dfy` | requests as separate reading, touch or revoke, and update steps |
| `SessionLifecycle.dfy` | second factor, expiry and revocation over every schedule of such steps |
| `IdleTimeout.dfy` | the debounced idle timer over every schedule |
| `SessionContext.dfy` | tenant and admin context, serial schedules, and what overlapping ones break |
| `Lockout.dfy` | the failed-login counter and its lock |
| `ConcurrentLogins.dfy` | the same for wrong logins that overlap |
| `AuthHandlers.dfy` | login and context selection handlers |
| `ByteStrings.dfy` | byte strings shared by the stream components |
| `LineWriter.dfy` | line prefixing and CRLF conversion of the dev server |
| `InstreamScan.dfy` | the clamd INSTREAM client |
| `PrunePool.dfy` | registry pruning: selection and the worker pool |
| `BusinessDays.dfy` | business-day arithmetic |
| `InviteTokens.dfy` | invite and password-reset tokens, statement by statement and call by call |
| `DigestWindows.dfy` | the daily digest pass and its windows |

## Where the code and its comments differ

The model follows the code.

- `backend/internal/reminders/fso.go:19` says the 30-day bucket is sent once. It goes out again
  exactly when an eligible pass lists by the due date more than 20 days after the mark of the
  first, or after a first that could not be marked (`D30TwiceIff`; a run in
  `ThreeBeforeDueHappen`), and, with marks succeeding, never a third time
  (`AtMostThreeBeforeDue`).
- `backend/internal/reminders/fso.go:20` says overdue goes out daily. A mark that commits after
  midnight takes the next day (`OverdueSentIff`), and one on a d90 can delay d30
  (`D30SentIff`).
- `backend/internal/reminders/fso.go:25-28` speaks of counts of cleared users. The counts are
  of joined rows: a user in two sub-orgs of one FSO counts twice (`CountsMatchIds` says
  exactly when the two agree).
- `backend/internal/team/store.go:311-312` says SetClearance is one transaction. It is three
  statements. There is one open row, named by current_clearance_id, exactly when one row was
  inserted since the last supersede and the last repoint names it (`OneOpenRowIff`). A call
  that stops early breaks that (`PartialCallsLoseTheRow`), and so do two overlapping calls that
  complete (`OverlappingCallsLeaveTwoOpenRows`). A review between the first two statements of
  a call finds no clearance unless an overlapping call has inserted one since; in every case the
  export is a replay of the statements executed by the review (`ExportIsReplayOfStatements`).
- `backend/internal/invite/store.go:38-41` says Generate invalidates earlier tokens. A token
  survives exactly the invalidations that fail or come before its own INSERT (`TokenLivesIff`),
  so two overlapping calls leave two valid tokens (`OverlappingInvitesBothValidate`).
- `backend/internal/identity/store.go:210-211` locks an account at the fifth failure. Logins that
  read the lock before an earlier failure is recorded are not held back (`OverlappingBound`,
  `ParallelLoginsAllCompare`).
- `backend/internal/visitrequest/export.go:71-74` ranks `top_secret_sci`, which
  `backend/internal/dd254/store.go:363-369` does not know; the two rankings differ there and
  nowhere else (`RankingsDifferOnlyOnTopSecretSci`).
- `backend/internal/auth/middleware.go:59-61` revokes an idle session so that the database
  matches. A touch still in flight from an earlier request can bring it back if that revoke
  fails (`LazyRevokeDecides`).
- `backend/internal/digest/digest.go:99-101` gives a first digest the last 24 hours. A failed
  first digest does not keep them: the window slides to the retry (`FailureKeepsWindow`).
- `backend/internal/session/store.go:151-155` describes a promotion from pre_auth. The update
  does not look at the state, so overlapping requests on one session can break the shape that
  serial ones keep (`CommitKeepsShapeIff`, `OverlappingSelectionsBreakShape`,
  `LateSecondFactorBreaksShape`).
- `backend/internal/session/store.go:285` deletes by age alone; a session kept valid by
  renewals is deleted at 90 days (`CleanupSparesValidSessions`, `RenewedSessionIsDeleted`).

## Model

| member | source | states |
|---|---|---|
| Cadence.RemindersAreBounded | backend/internal/reminders/fso.go:55-71 | over any run, from any past, a record gets at most one d90 and two d30 reminders, and one more for each such reminder whose mark fails |
| Cadence.AtMostThreeBeforeDue | backend/internal/reminders/fso.go:55-71 | so with marks succeeding at most one d90 and two d30 |
| Cadence.D30TwiceIff | backend/internal/reminders/fso.go:60-64 | d30 goes out more than once iff an eligible pass lists by the due date more than 20 days after the mark of a d30, or after a d30 that could not be marked |
| Cadence.ThreeBeforeDueHappen | backend/internal/reminders/fso.go:60-69 | for every due date a run sends d90, d30, d30: the bound of three is reached |
| Cadence.BucketsAdvance | backend/internal/reminders/fso.go:55-71 | reminders never go back to an earlier bucket, marks or not, and a marked overdue reminder is the last of its day |
| Cadence.D90SentIff | backend/internal/reminders/fso.go:65-69 | by an eligible pass of the d90 window d90 has been sent iff the record came to the run unmarked for the 60 days before it |
| Cadence.D30SentIff | backend/internal/reminders/fso.go:60-69 | by an eligible pass of the d30 window d30 has been sent iff the record came to the run unmarked for the 20 days before it and no d90 was marked within them, wherever marks commit and whether they succeed |
| Cadence.RemindersKeepTheirWindows | backend/internal/reminders/fso.go:55-71 | a reminder goes only to an eligible record, inside the window of its bucket and behind the gate on the timestamp as it stands |
| Cadence.OverdueSentIff | backend/internal/reminders/fso.go:56-59 | a day after due with an eligible pass sees an overdue reminder iff no earlier pass's mark, nor the initial one, is dated that day |
| Cadence.D30ByTenDaysBeforeDue | backend/internal/reminders/fso.go:60-69 | if every mark lands on the day of its listing, a pass on day due-10 finds d30 sent, or sends it, even after a d90 on day due-31 |
| Cadence.D30CanWaitUntilDueMinus10 | backend/internal/reminders/fso.go:60-69 | ten days is the latest: a d90 at the end of day due-31 silences every pass up to due-11 |
| Cadence.LateMarkDelaysD30 | backend/internal/reminders/fso.go:60-69 | a run in which a d90 listed on day due-31 and marked after midnight silences the pass on day due-10 |
| Cadence.OverdueOncePerDay | backend/internal/reminders/fso.go:56-59 | with marks that succeed on the day of their listing, on each day after due with an eligible pass exactly one of the day's passes sends overdue |
| Cadence.LateMarkSkipsADay | backend/internal/reminders/fso.go:56-59 | on any day, a run in which an overdue reminder listed the day before and marked after midnight silences it |
| Reminders.ListedOncePerSubOrg | backend/internal/reminders/fso.go:79-95 | a bucketed record is in an FSO's message once for each of its sub-orgs led by that FSO, and never otherwise |
| Reminders.OneMessagePerReachedFso | backend/internal/reminders/fso.go:87-95 | each FSO reached by a bucketed record gets exactly one message, and nobody else gets any |
| Reminders.CountsMatchIds | backend/internal/reminders/fso.go:83-86 | each bucket count is the number of listed ids in that bucket; the total counts distinct records iff none reaches the FSO twice |
| Reminders.ReminderStore.MarkReminded | backend/internal/reminders/fso.go:117-130 | sets the timestamp of exactly the given rows; nothing for an empty list |
| Reminders.ReminderStore.RunPass | backend/internal/reminders/reminders.go:180-195 | one listing, then notify and mark message by message; a failed mark leaves its rows alone |
| Reminders.RecordProjection | backend/internal/reminders/reminders.go:197-213 | what a run of table passes sends about one record is the record-level cadence, for clearance records and forms alike |
| Reminders.TableCadence | backend/internal/reminders/fso.go:137-198 | with eligibility and sub-org leadership changing between passes, at most one pass sends d90 and at most two send d30 about a record, and one more for each that could not mark it; none of those when marks succeed |
| Reminders.TableSendsD30TwiceIff | backend/internal/reminders/fso.go:49-113 | more than one pass sends d30 about a record iff a pass finds it eligible by the due date more than 20 days after the mark of a d30, or after one that could not be marked |
| Reminders.FsoCadence | backend/internal/reminders/fso.go:49-113 | each FSO gets at most one d90 and two d30 messages that list the record, and one more of a bucket for each pass that could not mark it |
| Reminders.TableSendsD90Iff | backend/internal/reminders/fso.go:49-113 | a record eligible when a pass lists in the d90 window has been sent d90 by then iff it came to the run unmarked for the 60 days before |
| Reminders.TableSendsD30Iff | backend/internal/reminders/fso.go:49-113 | a record eligible when a pass lists in the d30 window has been sent d30 by then iff it came to the run unmarked for the 20 days before and no d90 message about it was marked within them; no assumption on marks |
| Reminders.UndatedIsSilent | backend/internal/reminders/fso.go:75-77 | no pass ever reminds about a record without a date |
| Reminders.OutOfReachIsSilent | backend/internal/reminders/fso.go:72-95 | a pass lists no record outside the query's filter or without a reachable FSO |
| Reminders.TableSendsOverdueIff | backend/internal/reminders/fso.go:49-113 | each later day with an eligible pass sees an overdue message about the record iff no earlier mark is dated that day |
| Reminders.TableSendsD30 | backend/internal/reminders/fso.go:49-113 | with marks on the day of their listing, a record eligible when a pass lists on day due-10 has had its d30 reminder by then |
| Reminders.TableSendsOverdueOncePerDay | backend/internal/reminders/fso.go:49-113 | with marks that succeed on the day of their listing, on each later day with an eligible pass exactly one pass sends overdue about the record |
| ClearanceHistory.ClearanceStore.SetClearance | backend/internal/team/store.go:313-390 | rejects in the source's order without touching the table, else supersedes, inserts and repoints, as far as the database lets it |
| ClearanceHistory.CheckIff | backend/internal/team/store.go:314-345 | a call is recorded iff its level is one of the five, its investigation absent, empty or one of the four, its dates parse and the user is of the tenant; else the first failing check is reported |
| ClearanceHistory.ExportedFields | backend/internal/visitrequest/export.go:102-112 | nothing is exported of an unreviewed visit; of a reviewed one, level, investigation and each date as the visitor's last effective call was given them, NULL for an absent one |
| ClearanceHistory.OneOpenRowPerUser | backend/internal/team/store.go:347-387 | if calls do not overlap, a user with a record has exactly one open row, named by current_clearance_id, iff the user's last effective call ran to its end |
| ClearanceHistory.PartialCallsLoseTheRow | backend/internal/team/store.go:347-387 | a call that stops after its first or second statement leaves no open row, or a pointer to a superseded one |
| ClearanceHistory.LifetimesAreDisjoint | backend/internal/team/store.go:347-372 | if calls do not overlap, wherever they stop, a user's lifetimes are pairwise disjoint and in insertion order |
| ClearanceHistory.ReplayLeavesLastCall | backend/internal/team/store.go:347-372 | if calls do not overlap, a replay leaves current exactly what the user's last effective call was given, or nothing if it failed to insert |
| ClearanceHistory.SnapshotIsUnique | backend/internal/visitrequest/export.go:102-112 | at most one row covers an instant, so the join's LIMIT never chooses |
| ClearanceHistory.ExportIsReplay | backend/internal/visitrequest/export.go:102-112 | if calls do not overlap, the exported clearance is what replaying the calls over by the review leaves current, or nothing iff the review falls between a supersede and its insert |
| ClearanceHistory.ReviewInGapFindsNothing | backend/internal/visitrequest/export.go:102-112 | a review between the two statements of a call exports nothing, with a clearance before and after |
| ClearanceHistory.LaterCallsDoNotRewriteHistory | backend/internal/visitrequest/export.go:8-13 | a call after the review never changes what the export reports for it |
| ClearanceStatements.OpenRowsAre | backend/internal/team/store.go:347-372 | under any interleaving of statements the open rows of a user are exactly those inserted since the user's last supersede |
| ClearanceStatements.OneOpenRowIff | backend/internal/team/store.go:347-387 | exactly one open row, named by current_clearance_id, iff exactly one row was inserted since the last supersede and the last repoint names it |
| ClearanceStatements.CoversIff | backend/internal/visitrequest/export.go:102-112 | a row covers an instant iff replaying the statements executed by then leaves it open |
| ClearanceStatements.LifetimesMeetIff | backend/internal/team/store.go:347-372 | two rows of a user cover one instant iff that replay leaves both open |
| ClearanceStatements.ExportIsReplayOfStatements | backend/internal/visitrequest/export.go:102-112 | under any interleaving the export may show a row iff replaying the statements executed by the review leaves it open and no other open one is newer, and shows nothing iff none is open |
| ClearanceStatements.SnapshotMayBeExported | backend/internal/visitrequest/export.go:102-112 | the join returns a row of latest recorded_at among those covering the review, or nothing iff there is none |
| ClearanceStatements.LaterStatementsDoNotRewrite | backend/internal/visitrequest/export.go:8-13 | no statement after the review, of whatever call, changes what the export may show |
| ClearanceStatements.ReplayRunsStatements | backend/internal/team/store.go:347-387 | calls that do not overlap are the special case of one call's statements after another's |
| ClearanceStatements.OverlappingCallsLeaveTwoOpenRows | backend/internal/team/store.go:347-387 | two overlapping calls that both complete leave two open rows, and a review in the second one's gap finds the first one's row |
| VisitAuthorization.SuggestedIff | backend/internal/dd254/store.go:371-444 | a form is suggested iff it is active, of the tenant, valid over the visit, granted without a debriefing date and of sufficient rank; once, with the exact-match reason iff the ranks are equal |
| VisitAuthorization.Dd254Store.SuggestForVisit | backend/internal/dd254/store.go:371-444 | the loop returns that list, or not-found for a visit outside the tenant |
| VisitAuthorization.Dd254Store.GrantAccess | backend/internal/dd254/store.go:281-321 | checks form, then user, then inserts or replaces exactly one grant |
| VisitAuthorization.Dd254Store.RevokeAccess | backend/internal/dd254/store.go:324-338 | removes exactly that grant, or reports not-found and changes nothing |
| VisitAuthorization.Dd254Store.SetVisitRequestDD254 | backend/internal/dd254/store.go:446-474 | links a form of the same tenant or clears the link, changing that visit only |
| VisitAuthorization.RankingsDifferOnlyOnTopSecretSci | backend/internal/dd254/store.go:363-369 | the Go and SQL rankings agree on every string but top_secret_sci |
| VisitAuthorization.RankOrder | backend/internal/visitrequest/export.go:71-74 | both rankings put none, confidential, secret, top_secret, ts_sci in this order and other strings lowest |
| VisitAuthorization.ConfirmedIff | backend/internal/visitrequest/export.go:83-97 | confirmed iff linked and reviewed, the form's rank sufficient, its period covering the visit, and the grant begun and not ended on the review day |
| VisitAuthorization.DatingAGrant | backend/internal/visitrequest/export.go:90-95 | a debriefing by the review day ends the confirmation and a later one leaves it, a briefing after the review day ends it and an earlier one leaves it |
| VisitAuthorization.SuggestionIsConfirmed | backend/internal/visitrequest/export.go:83-97 | a suggested, linked, reviewed form is confirmed iff the briefing date allows it and top_secret_sci is not asked above the form |
| VisitAuthorization.TopSecretSciIsSuggestedUnconfirmed | backend/internal/dd254/store.go:363-369 | a visit asking for top_secret_sci is offered a secret form that the export does not confirm |
| VisitAuthorization.ConfirmedIsSuggested | backend/internal/visitrequest/export.go:83-97 | a confirmed form that is still active and not debriefed is among the suggestions |
| Sessions.SessionStore.Create | backend/internal/session/store.go:51-77 | inserts one context-free row with 15 minutes for half-way states and 7 days otherwise |
| Sessions.NewSessionIsBlank | backend/internal/session/store.go:51-77 | a new session has no context, factor or revocation and 900 or 604800 seconds |
| Sessions.ColumnsHaveTheirWriters | backend/internal/session/store.go:104-303 | which statements write which column; identity, login and creation time never change |
| Sessions.GateThresholds | backend/internal/auth/middleware.go:56-78 | refused if missing, revoked or at expiry; turned away after 1800 idle seconds; touched after 60 |
| Sessions.SessionStore.SetTenant | backend/internal/session/store.go:126-138 | the UPDATE changes that one row and no other |
| Sessions.SessionStore.SetSuperAdmin | backend/internal/session/store.go:140-149 | the UPDATE changes that one row and no other |
| Sessions.SessionStore.SetSecondFactor | backend/internal/session/store.go:156-165 | the UPDATE changes that one row and no other |
| Sessions.SessionStore.ResetContext | backend/internal/session/store.go:272-283 | the UPDATE changes that one row and no other |
| Sessions.SessionStore.Revoke | backend/internal/session/store.go:167-180 | revokes the row once; reports whether it was still unrevoked |
| Sessions.SessionStore.RevokeByTenant | backend/internal/session/store.go:215-225 | revokes the tenant's live rows and returns how many changed |
| Sessions.SessionStore.RevokeByIdentity | backend/internal/session/store.go:243-253 | revokes the identity's live rows and returns how many changed |
| Sessions.SessionStore.RevokeByIdentityExcept | backend/internal/session/store.go:259-269 | the same, sparing one session |
| Sessions.RevocationTargets | backend/internal/session/store.go:214-269 | after a bulk revocation exactly the targeted sessions stop being valid |
| Sessions.SessionStore.CleanupExpired | backend/internal/session/store.go:285-303 | revokes what has expired and returns how many, then deletes what is older than 90 days; stops at the first statement that fails |
| Sessions.CleanupSparesValidSessions | backend/internal/session/store.go:285-303 | cleanup ends a valid session iff it was created more than 90 days ago |
| Sessions.CleanupLeaves | backend/internal/session/store.go:285-303 | the job leaves exactly the rows of the last 90 days, those that had expired revoked and the others as they were |
| Sessions.SessionStore.RequireSession | backend/internal/auth/middleware.go:42-83 | absolute expiry, idle timeout with revoke, debounced touch, either of which may come later and fail, and the row as read |
| SessionSystem.RowAfterStep | backend/internal/router/router.go:291-361 | every row after a step of a schedule was inserted by a login or is an old row under one statement of the store |
| SessionSystem.PendingAfterStep | backend/internal/auth/middleware.go:56-100 | every request in flight was there before, past its touch and state gate, or has just been read |
| SessionSystem.WhatAStateAdmits | backend/internal/router/router.go:291-361 | what a session in each state can do next |
| SessionSystem.UninterruptedGate | backend/internal/auth/middleware.go:56-78 | without interruption a read and its follow-up do what RequireSession does |
| SessionLifecycle.PasswordSessionsHaveSecondFactor | backend/internal/session/store.go:156-165 | under any interleaving a password session in pre_tenant or authenticated has its second factor set |
| SessionLifecycle.FactorIsNeverCleared | backend/internal/session/store.go:104-303 | no statement of the store clears the second factor or changes how the session was created |
| SessionLifecycle.ExpiryIsBounded | backend/internal/session/store.go:17-32 | under any interleaving half-way sessions expire 15 minutes after creation and none has more than 7 days left |
| SessionLifecycle.HalfWaySessionsEnd | backend/internal/session/store.go:17-32 | under any interleaving a session still half-way 900 seconds after its creation is refused |
| SessionLifecycle.SessionsComeFromLogins | backend/internal/session/store.go:51-77 | every session belongs to the identity, method and instant of a login of the run |
| SessionLifecycle.HalfWayExit | backend/internal/router/router.go:293-330 | under any interleaving pre_auth is left only by a verified second factor and setup_2fa only by a confirmed enrolment, into pre_tenant with that factor and seven days |
| SessionLifecycle.SessionCarriesItsSelection | backend/internal/session/store.go:126-138 | under any interleaving an authenticated session without the flag carries the tenant, user and role of its last completed selection, and that selection's sub-org or the one its user was moved to since |
| SessionLifecycle.RevokedForever | backend/internal/session/store.go:79-102 | once revoked, a session is never returned by GetValid again, whatever follows |
| SessionLifecycle.AuthenticatedWasPreTenant | backend/internal/auth/auth.go:547-637 | under any interleaving an authenticated session was in pre_tenant at an earlier point of the run |
| IdleTimeout.TimerIsWithinAMinute | backend/internal/auth/middleware.go:73-78 | last_active_at is at most the delay of touches after the last accepted request, and, if no touch fails and none is in flight, at most a minute before it |
| IdleTimeout.IdleGapDecides | backend/internal/auth/middleware.go:62-78 | with no touch failed or in flight a gap of up to 29 minutes is never rejected for idleness; one over 30 minutes plus the delay of touches always is, failed touches or not |
| IdleTimeout.RejectedWhileTouchInFlight | backend/internal/auth/middleware.go:62-78 | a schedule in which a request is rejected for idleness a second after an accepted one whose touch has not landed |
| IdleTimeout.IdleSessionStaysOut | backend/internal/auth/middleware.go:62-71 | after a rejection for idleness no later request on the session is accepted, iff no touch was in flight |
| IdleTimeout.LazyRevokeDecides | backend/internal/auth/middleware.go:62-71 | once the lazy revoke has been tried the session stays out iff the revoke succeeded or no touch was in flight |
| SessionContext.ContextMatchesState | backend/internal/session/store.go:126-165 | with one request in flight per session, half-way states carry no context, authenticated carries a tenant and user or the flag, not both, and expiry and second factor are in order |
| SessionContext.SelectionsAreSeparatedBySwitch | backend/internal/auth/auth.go:474-637 | with one request in flight per session, between two completed selections there is a switch |
| SessionContext.CommitKeepsShapeIff | backend/internal/session/store.go:126-165 | under any interleaving an update breaks the shape iff it adds the flag to a tenant context or a late second factor meets an authenticated session |
| SessionContext.OverlappingSelectionsBreakShape | backend/internal/session/store.go:140-149 | a schedule in which two overlapping selections leave a tenant and the flag together |
| SessionContext.LateSecondFactorBreaksShape | backend/internal/session/store.go:156-165 | a schedule in which a second code check that finishes late leaves a pre_tenant session with a tenant |
| SessionContext.FirstLoginCompletes | backend/internal/router/router.go:318-330 | a run in which an enrolment promotes a setup_2fa session and a selection authenticates it |
| SessionContext.SelectionsRenew | backend/internal/session/store.go:126-149 | a completed selection gives seven days; a switch gives no time and keeps role and sub-org in the row |
| SessionContext.RenewedSessionIsDeleted | backend/internal/session/store.go:285-303 | a schedule of renewals after which a session older than 90 days is still accepted, and is then deleted |
| Lockout.LockoutBound | backend/internal/identity/store.go:210-229 | for logins that follow one another, without a success in between, any window of length L holds at most 5 + floor(L / 30 min) password comparisons plus the failures in it that could not be put on record |
| Lockout.NothingOnRecord | backend/internal/auth/auth.go:215-219 | if no failure can be put on record there is no bound |
| Lockout.LockoutBoundIsTight | backend/internal/identity/identity.go:9-31 | the bound is reached for every whole number of lock durations |
| Lockout.SuccessResets | backend/internal/identity/store.go:232-241 | after a recorded success five wrong passwords are compared however soon they come, and a sixth only 1800 seconds after the fifth |
| ConcurrentLogins.OverlappingBound | backend/internal/auth/auth.go:202-220 | under any interleaving of wrong logins the bound holds with one more for each comparison in the window made while an earlier failure was still to be recorded, or after one that never was |
| ConcurrentLogins.SequenceIsSequential | backend/internal/auth/auth.go:202-220 | wrong logins that follow one another compare as in the sequential model, and all count if recorded |
| ConcurrentLogins.ParallelLoginsAllCompare | backend/internal/auth/auth.go:202-220 | any number of logins that read an open lock at one instant all compare the password |
| AuthHandlers.AuthHandler.Login | backend/internal/auth/auth.go:158-300 | the outcome in the source's order, the counter's change if its update succeeds, and a new pre_auth or setup_2fa session exactly on success |
| AuthHandlers.AuthHandler.RecordFailedLogin | backend/internal/identity/store.go:212-229 | counts one failure and locks from the fifth on, for this identity only |
| AuthHandlers.AuthHandler.ClearFailedLogin | backend/internal/identity/store.go:232-241 | resets counter and lock of this identity only |
| AuthHandlers.AuthHandler.SelectTenant | backend/internal/auth/auth.go:547-604 | forbidden without membership or for a suspended tenant, else the tenant update of the schedule model |
| AuthHandlers.AuthHandler.SelectAdmin | backend/internal/auth/auth.go:606-637 | forbidden unless the identity is a super admin, else the admin update of the schedule model |
| AuthHandlers.AuthHandler.SwitchContext | backend/internal/auth/auth.go:474-497 | issues the context reset of the schedule model |
| LineWriter.Terminal.Write | tools/dev/serve.go:22-27 | in raw mode shows the CRLF form of the write and reports the full length |
| LineWriter.PrefixWriter.Write | tools/dev/serve.go:42-57 | emits the complete lines of buffer plus input, prefixed, and keeps the newline-free rest |
| LineWriter.PrefixWriter.Flush | tools/dev/serve.go:59-67 | emits a pending rest as one last line |
| LineWriter.LinesSplit | tools/dev/serve.go:42-57 | cutting a stream anywhere does not change its lines or its rest |
| LineWriter.LineShape | tools/dev/serve.go:48-54 | an emitted line has one newline, at its end |
| LineWriter.EachWriterEmitsItsLines | tools/dev/serve.go:29-57 | for any cutting into writes and any interleaving of writers, each writer emits exactly its own lines once, in order, and buffers no newline |
| LineWriter.FlushedOutputIsComplete | tools/dev/serve.go:59-67 | after a final flush the emitted lines are the whole input |
| LineWriter.RawTerminalShowsWholeCrlf | tools/dev/serve.go:17-27 | converting write by write behind the line writers equals converting the whole output |
| LineWriter.PlainTerminalShowsWrites | tools/dev/serve.go:42-67 | without raw mode the terminal shows the writes as they are |
| LineWriter.CrlfAppendIff | tools/dev/serve.go:22-27 | converting two writes separately equals converting them together iff no CRLF pair is torn between them |
| LineWriter.CrlfIdempotent | tools/dev/serve.go:23-24 | the conversion is idempotent and keeps the text between line ends |
| LineWriter.LineCrlf | tools/dev/serve.go:22-27 | text without a line feed is unchanged, and a line feed gets a carriage return unless it has one |
| LineWriter.LineEndsAreCrlf | tools/dev/serve.go:23-24 | every newline shown follows a carriage return |
| ByteStrings.IndexByte | backend/internal/scan/clamav.go:143-150 | the position of the first occurrence, or -1 |
| InstreamScan.BigEndianRoundTrip | backend/internal/scan/clamav.go:85-86 | a length that fits its width survives the encoding |
| InstreamScan.SendStream | backend/internal/scan/clamav.go:75-105 | wherever a write fails, what reached the connection is the stream cut there; with the outcome of the first failure |
| InstreamScan.StreamRoundTrip | backend/internal/scan/clamav.go:80-105 | for every pattern of reads a server decodes exactly the input and finds no zero length before the terminator |
| InstreamScan.ProperPrefixIsIncomplete | backend/internal/scan/clamav.go:80-105 | the framing is prefix-free: no cut stream decodes to a complete shorter one |
| InstreamScan.ServerSeesAllOrNothing | backend/internal/scan/clamav.go:75-105 | the server gets a complete stream iff the source is read to its end and every byte is accepted, and then it is exactly the source |
| InstreamScan.ReadReply | backend/internal/scan/clamav.go:107-125 | however the reply is split, the result is the bytes before the first NUL, or all of them |
| InstreamScan.Scan | backend/internal/scan/clamav.go:62-141 | what is written, and each verdict iff the upload, the reading and the words of the reply call for it; a clean verdict means the server got the whole source |
| InstreamScan.VerdictRoundTrip | backend/internal/scan/clamav.go:127-140 | a clean, infected or error reply is read back as the verdict sent, whatever the signature or text |
| InstreamScan.ClassifyIff | backend/internal/scan/clamav.go:127-140 | each verdict iff the reply, between white space, says it: clean, a signature, an error, nothing; unexpected iff none of these |
| InstreamScan.StreamBeginsWithCommand | backend/internal/scan/clamav.go:75-77 | the stream begins with the ASCII bytes of zINSTREAM and a zero |
| PrunePool.Select | tools/dev/registry.go:187-215 | selects exactly the dated images at least 30 days old without a protected tag, in order, and counts the protected ones skipped |
| PrunePool.OnlyPrunableAttempted | tools/dev/registry.go:189-215 | in no interleaving is an image attempted that is newer than the cutoff, undated, or tagged latest, staging or prod |
| PrunePool.PrunableIff | tools/dev/registry.go:170-215 | what may be pruned, by date and tags |
| PrunePool.SkippedIff | tools/dev/registry.go:204-213 | what is counted as skipped |
| PrunePool.NothingBeginsAfterCancel | tools/dev/registry.go:271-275 | after Ctrl+C no deletion begins |
| PrunePool.CancelledIff | tools/dev/registry.go:252-255 | the pool is cancelled by Ctrl+C and by nothing else |
| PrunePool.EachWorkerDropsOne | tools/dev/registry.go:271-275 | a worker that finds the pool cancelled returns with the one item it took |
| PrunePool.AtMostEightAtOnce | tools/dev/registry.go:257-270 | never more than eight deletions run at once |
| PrunePool.AttemptedAtMostOnce | tools/dev/registry.go:257-283 | in every interleaving each selected image is attempted at most once |
| PrunePool.SendsNeverBlock | tools/dev/registry.go:268-280 | a worker with a result always finds room in the channel |
| PrunePool.FinalAccounting | tools/dev/registry.go:289-317 | at the end, deleted is the number of deletions that succeeded, failed that of the others, and selected minus both is exactly queued plus dropped, zero without cancellation |
| PrunePool.FinalPlace | tools/dev/registry.go:289-309 | at the end every image is reported deleted or failed, as its deletion ended, or still queued, or dropped, and only one of these |
| PrunePool.NoDeadlock | tools/dev/registry.go:270-290 | until the collector is done some step other than cancellation can be taken |
| PrunePool.RunsAreBounded | tools/dev/registry.go:257-307 | every schedule ends within five steps per image and ten more |
| BusinessDays.AddBusinessDays | backend/internal/travel/cron.go:14-23 | terminates; for n > 0 lands on a weekday with exactly n weekdays passed, at the same time of day; otherwise returns t |
| BusinessDays.CalendarAnchor | backend/internal/travel/cron.go:18 | weekdays and seconds anchored at 1 January 1970 and Monday 1 January 2024 |
| BusinessDays.LandIsTheOnlyDay | backend/internal/travel/cron.go:15-23 | those two facts determine the day |
| BusinessDays.LandIsAdditive | backend/internal/travel/cron.go:15-23 | adding a and then b business days is adding a + b |
| BusinessDays.ClosedForm | backend/internal/travel/cron.go:15-23 | from weekday d the advance is n + 2 * floor((d + n) / 5) days |
| BusinessDays.WeekendStartsLikeFriday | backend/internal/travel/cron.go:15-23 | from Saturday it is one day shorter than from Friday, from Sunday two |
| InviteTokens.TokenStore.Generate | backend/internal/invite/store.go:39-64 | retires the identity's unused invites if that UPDATE succeeds, and inserts one valid for 7 days in any case |
| InviteTokens.TokenStore.GeneratePasswordReset | backend/internal/invite/store.go:104-126 | the same for resets, valid for one hour |
| InviteTokens.TokenStore.Validate | backend/internal/invite/store.go:68-90 | looks up the newest unused invite with the token's hash and checks its expiry |
| InviteTokens.TokenStore.ValidatePasswordReset | backend/internal/invite/store.go:130-151 | the same for resets |
| InviteTokens.TokenStore.MarkUsed | backend/internal/invite/store.go:93-101 | marks exactly that row |
| InviteTokens.TableRefinesSlots | backend/internal/invite/store.go:47-58 | under any interleaving of statements the unused rows are exactly the outstanding tokens: those inserted since the identity's last successful invalidation, except the used ones |
| InviteTokens.TableOfCall | backend/internal/invite/store.go:39-64 | the store's methods are the runs of one call's statements without interruption |
| InviteTokens.OneSlot | backend/internal/invite/store.go:47-57 | while calls do not overlap and invalidations succeed, the outstanding tokens are the content of one slot per identity and purpose |
| InviteTokens.ValidatesIffOutstanding | backend/internal/invite/store.go:68-151 | with fresh tokens a token validates iff it is outstanding and unexpired, and is reported expired iff outstanding and past its expiry |
| InviteTokens.ValidatesIffCurrent | backend/internal/invite/store.go:68-151 | if calls do not overlap and the identity's invalidations succeed, a token validates iff it is the last one generated for its identity and purpose, unused and unexpired |
| InviteTokens.OldTokenSurvivesIff | backend/internal/invite/store.go:47-58 | under any interleaving a valid token stays valid until a successful invalidation for its identity and purpose, of whatever call, or its own mark |
| InviteTokens.NewTokenValidates | backend/internal/invite/store.go:39-151 | a fresh token validates for its own purpose, an invite for 604800 seconds and a reset for 3600, and for no other |
| InviteTokens.TokenLivesIff | backend/internal/invite/store.go:47-90 | from its INSERT on, a token is found iff no such invalidation and no mark comes after the INSERT, and then validates until its time is over |
| InviteTokens.InvalidationKeepsUse | backend/internal/invite/store.go:47-52 | an invalidation changes the unused rows of that identity and purpose only |
| InviteTokens.OverlappingInvitesBothValidate | backend/internal/invite/store.go:47-58 | two overlapping calls whose statements all succeed leave two invites that both validate |
| InviteTokens.BothInvitesValidate | backend/internal/invite/store.go:47-52 | two invites of one identity that both validate, after an invalidation that failed |
| InviteTokens.UsedTokenIsGone | backend/internal/invite/store.go:92-101 | a token marked used is not found again for any purpose, whatever follows |
| DigestWindows.DigestService.Run | backend/internal/digest/digest.go:247-292 | every user ends as its own turn says, and the three counters are exact and account for every recipient |
| DigestWindows.CountNewIsWindowSize | backend/internal/digest/digest.go:107-114 | the new-item count is the number of events in the half-open window |
| DigestWindows.MailedIff | backend/internal/digest/digest.go:61-292 | a user is mailed iff opted in, unmarked for 23 hours, counts and sender working, and an open item or a new event to report; and exactly when it is skipped, failed or not listed |
| DigestWindows.TurnLeaves | backend/internal/digest/digest.go:255-279 | a mail or an empty digest marks the user if it can, a failure does not |
| DigestWindows.OneMailIn23Hours | backend/internal/digest/digest.go:61-68 | a user whose mail was marked gets no other within 23 hours of the mark |
| DigestWindows.WindowsAreDisjoint | backend/internal/digest/digest.go:217-230 | once a completed digest has marked its user no later one counts an instant of its window again, and the two are over 23 hours apart |
| DigestWindows.CountedAgainIff | backend/internal/digest/digest.go:255-279 | with marks that may fail, an instant counted once is counted again by a later completed pass iff no mark succeeded in between and, without a digest before, the sliding window still reaches it |
| DigestWindows.FailureKeepsWindow | backend/internal/digest/digest.go:255-275 | a failed count or send leaves the user as it was, and the next turn sees the failed turn's lower end iff there has been a digest before |
| DigestWindows.FailedFirstDigest | backend/internal/digest/digest.go:107-114 | with marks succeeding, of the window of a failed first digest exactly the instants less than 24 hours before the first completed counts are ever counted |
| DigestWindows.FailedFirstDigestLosesAnEvent | backend/internal/digest/digest.go:107-114 | a run in which an event of a failed first digest is never counted |
| DigestWindows.CountedIffNotMissed | backend/internal/digest/digest.go:220-230 | with marks succeeding, for any user an instant up to the last mark was counted iff it is after the opening of the first window and not between a completed pass's counts and its mark |
| DigestWindows.AnnouncedExactly | backend/internal/digest/digest.go:107-230 | with marks succeeding, over a run that sees one list of events, the new-item counts of all digests add up to the events after the opening that no pass missed, each once |
| DigestWindows.WindowsPartitionTime | backend/internal/digest/digest.go:247-292 | with marks succeeding, and counting and marking at one instant, each instant after the opening is in exactly one window |

## Left out

- Scan: dial errors, deadlines and contexts are not modelled; a write fails by delivering only part of its bytes.
- TrimSpace: only ASCII white space is trimmed, not the Unicode spaces of the Go library.
- RunPass: reminder passes do not overlap; what the notifier does with a message, including its own gating, is not modelled; the joins that produce a row's routes are taken as given.
- Login: one uninterrupted call; overlapping wrong logins are ConcurrentLogins. Email lower-casing, CSRF tokens, cookies, audit entries and database errors other than a failing counter update are not modelled.
- SetClearance: notes, recorded_by and date parsing are left to the caller.
- SessionSystem.Next: a handler's own lookups and code checks are not steps; their outcome is whether its update is issued.
- Generate: the random token is a parameter; a failing INSERT is not modelled.
- DigestService.Run: digest passes do not overlap; the role-specific count queries are one list of event instants and one number of open items per user.
- HashToken: SHA-256 is modelled as an injective function and tokens as distinct.
- PrunePool.Next: deleting an image is one step with either outcome; the confirmation prompt and the printed report are left out.
- Individual-contributor task reminders (reminders.go, Run and CountForUser) keep no state between passes.
- ExportEach's filters, ordering, row layout and streaming callback are presentational.
- session.Store.UpdateState has no caller and would break the state invariants; ListByIdentity is a plain query.
- List, filter, pagination, statistics, CSV, PDF, email templates, wiki, chat, travel and visit CRUD would add only easy members.
- Cryptography, WebAuthn, TOTP, OIDC and AI calls appear only as yes-or-no outcomes.
- Deletion of users, tenants and identities, migrations and foreign keys are not modelled.
- Daylight saving, leap seconds and sub-second time are not modelled.
