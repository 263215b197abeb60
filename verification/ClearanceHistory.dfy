/** Clearance history (team/store.go SetClearance) and the as-of join of the audit export
    (visitrequest/export.go).

    SetClearance is three statements, each of which commits on its own. A call therefore
    carries how far it got, when the old row was superseded and when the new row was
    inserted. A completed call whose two instants are equal is the single transaction of
    its comment. */
module ClearanceHistory {
  import opened Wrappers
  import opened Clock

  type UserId = nat
  type TenantId = nat

  /** An optional date argument: absent (or empty), unparseable, or a day. */
  datatype DateArg = Missing | Unparseable | On(day: Day)

  datatype Params = Params(level: string, investigation: Option<string>,
                           eligibility: DateArg, lastInvestigation: DateArg, nextInvestigation: DateArg)

  /** The payload of one history row. */
  datatype Clearance = Clearance(level: string, investigation: Option<string>, eligibility: Option<Day>,
                                 lastInvestigation: Option<Day>, nextInvestigation: Option<Day>)

  /** A row of user_clearance_records; its id is its insertion position. */
  datatype Record = Record(user: UserId, clearance: Clearance, recordedAt: Time, supersededAt: Option<Time>)

  datatype Error = InvalidClearance | InvalidInvestigation | BadDate | NotFound | Database

  datatype Outcome = Recorded(id: nat) | Rejected(error: Error)

  /** The table and users.current_clearance_id. */
  datatype History = History(rows: seq<Record>, current: map<UserId, nat>)

  /** The last of the three statements that succeeded. */
  datatype Progress = NothingDone | OnlySuperseded | NotRepointed | Completed

  datatype Call = Call(tenant: TenantId, user: UserId, params: Params,
                       supersedeAt: Time, insertAt: Time, progress: Progress)

  predicate ValidClearance(level: string) {
    level in {"none", "confidential", "secret", "top_secret", "ts_sci"}
  }

  predicate ValidInvestigation(kind: string) {
    kind in {"T3", "T3R", "T5", "T5R"}
  }

  function DateOf(d: DateArg): Option<Day> {
    if d.On? then Some(d.day) else None
  }

  /** The checks SetClearance makes before it touches the table, in order. */
  function Check(tenantOf: map<UserId, TenantId>, c: Call): Option<Error> {
    var p := c.params;
    if !ValidClearance(p.level) then Some(InvalidClearance)
    else if p.investigation.Some? && p.investigation.value != "" && !ValidInvestigation(p.investigation.value) then
      Some(InvalidInvestigation)
    else if p.eligibility.Unparseable? || p.lastInvestigation.Unparseable? || p.nextInvestigation.Unparseable? then
      Some(BadDate)
    else if !(c.user in tenantOf && tenantOf[c.user] == c.tenant) then Some(NotFound)
    else None
  }

  /** A call is recorded exactly when its level and investigation are known, its dates parse, and
      the user belongs to the tenant; otherwise the first of these that fails is reported. */
  lemma CheckIff(tenantOf: map<UserId, TenantId>, c: Call)
    ensures var p := c.params;
            var levelOk := p.level == "none" || p.level == "confidential" || p.level == "secret" ||
                           p.level == "top_secret" || p.level == "ts_sci";
            var kindOk := p.investigation == None || p.investigation == Some("") || p.investigation == Some("T3") ||
                          p.investigation == Some("T3R") || p.investigation == Some("T5") ||
                          p.investigation == Some("T5R");
            var datesOk := p.eligibility != Unparseable && p.lastInvestigation != Unparseable &&
                           p.nextInvestigation != Unparseable;
            var userOk := c.user in tenantOf && tenantOf[c.user] == c.tenant;
            && (Check(tenantOf, c) == None <==> levelOk && kindOk && datesOk && userOk)
            && (Check(tenantOf, c) == Some(InvalidClearance) <==> !levelOk)
            && (Check(tenantOf, c) == Some(InvalidInvestigation) <==> levelOk && !kindOk)
            && (Check(tenantOf, c) == Some(BadDate) <==> levelOk && kindOk && !datesOk)
            && (Check(tenantOf, c) == Some(NotFound) <==> levelOk && kindOk && datesOk && !userOk)
  {
  }

  /** A row carries the arguments of its call: each date in its own column, an absent date and an
      absent or empty investigation as NULL. */
  ghost predicate Carries(x: Clearance, p: Params) {
    && x.level == p.level
    && (x.investigation == None <==> p.investigation == None || p.investigation == Some(""))
    && (x.investigation != None ==> x.investigation == p.investigation)
    && (forall d :: x.eligibility == Some(d) <==> p.eligibility == On(d))
    && (forall d :: x.lastInvestigation == Some(d) <==> p.lastInvestigation == On(d))
    && (forall d :: x.nextInvestigation == Some(d) <==> p.nextInvestigation == On(d))
  }

  function NewClearance(p: Params): Clearance {
    Clearance(p.level, if p.investigation == Some("") then None else p.investigation,
              DateOf(p.eligibility), DateOf(p.lastInvestigation), DateOf(p.nextInvestigation))
  }

  function Supersede(rows: seq<Record>, user: UserId, at: Time): seq<Record> {
    seq(|rows|, i requires 0 <= i < |rows| =>
      if rows[i].user == user && rows[i].supersededAt.None? then rows[i].(supersededAt := Some(at)) else rows[i])
  }

  function NewRow(c: Call): Record {
    Record(c.user, NewClearance(c.params), c.insertAt, None)
  }

  predicate Inserts(c: Call) {
    c.progress.NotRepointed? || c.progress.Completed?
  }

  /** The effect of a call that passes its checks. */
  function Apply(h: History, c: Call): History {
    if c.progress.NothingDone? then h
    else
      var superseded := Supersede(h.rows, c.user, c.supersedeAt);
      if !Inserts(c) then History(superseded, h.current)
      else
        History(superseded + [NewRow(c)],
                if c.progress.Completed? then h.current[c.user := |h.rows|] else h.current)
  }

  class ClearanceStore {
    /** The users table: the tenant of every existing user. */
    const tenantOf: map<UserId, TenantId>
    var rows: seq<Record>
    var current: map<UserId, nat>

    constructor (tenantOf: map<UserId, TenantId>)
      ensures this.tenantOf == tenantOf && rows == [] && current == map[]
    {
      this.tenantOf := tenantOf;
      rows, current := [], map[];
    }

    method SetClearance(c: Call) returns (r: Outcome)
      modifies this
      ensures match Check(tenantOf, c)
              case Some(e) => r == Rejected(e) && rows == old(rows) && current == old(current)
              case None =>
                && r == (if c.progress.Completed? then Recorded(|old(rows)|) else Rejected(Database))
                && (c.progress.Completed? ==>
                      |rows| == |old(rows)| + 1 && rows[|old(rows)|].user == c.user &&
                      rows[|old(rows)|].supersededAt == None && Carries(rows[|old(rows)|].clearance, c.params) &&
                      c.user in current && current[c.user] == |old(rows)|)
                && History(rows, current) == Apply(History(old(rows), old(current)), c)
    {
      if !ValidClearance(c.params.level) {
        return Rejected(InvalidClearance);
      }
      if c.params.investigation.Some? && c.params.investigation.value != "" &&
         !ValidInvestigation(c.params.investigation.value) {
        return Rejected(InvalidInvestigation);
      }
      if c.params.eligibility.Unparseable? || c.params.lastInvestigation.Unparseable? ||
         c.params.nextInvestigation.Unparseable? {
        return Rejected(BadDate);
      }
      if c.user !in tenantOf || tenantOf[c.user] != c.tenant {
        return Rejected(NotFound);
      }
      // 1. Supersede any current row.
      if c.progress.NothingDone? {
        return Rejected(Database);
      }
      for i := 0 to |rows|
        invariant |rows| == |old(rows)| && current == old(current)
        invariant rows[..i] == Supersede(old(rows), c.user, c.supersedeAt)[..i]
        invariant rows[i..] == old(rows)[i..]
      {
        assert rows[i] == rows[i..][0] == old(rows)[i];
        assert rows[i + 1..] == rows[i..][1..];
        if rows[i].user == c.user && rows[i].supersededAt.None? {
          rows := rows[i := rows[i].(supersededAt := Some(c.supersedeAt))];
        }
        assert rows[..i + 1] == rows[..i] + [rows[i]];
      }
      assert rows == Supersede(old(rows), c.user, c.supersedeAt);
      // 2. Insert the new row.
      if c.progress.OnlySuperseded? {
        return Rejected(Database);
      }
      r := Recorded(|rows|);
      var invested := if c.params.investigation == Some("") then None else c.params.investigation;
      var clearance := Clearance(c.params.level, invested, DateOf(c.params.eligibility),
                                 DateOf(c.params.lastInvestigation), DateOf(c.params.nextInvestigation));
      rows := rows + [Record(c.user, clearance, c.insertAt, None)];
      // 3. Repoint the user.
      if c.progress.NotRepointed? {
        return Rejected(Database);
      }
      current := current[c.user := r.id];
    }
  }

  // ---------- Histories built by successive calls ----------

  function Replay(calls: seq<Call>): History {
    if calls == [] then History([], map[]) else Apply(Replay(calls[..|calls| - 1]), calls[|calls| - 1])
  }

  /** The instant of a call's last statement. */
  function LastAt(c: Call): Time {
    if Inserts(c) then c.insertAt else c.supersedeAt
  }

  /** Calls follow one another, each superseding before it inserts. */
  ghost predicate Chronological(calls: seq<Call>) {
    && (forall i | 0 <= i < |calls| :: calls[i].supersedeAt <= LastAt(calls[i]))
    && (forall i, j | 0 <= i < j < |calls| :: LastAt(calls[i]) <= calls[j].supersedeAt)
  }

  /** The half-open lifetimes of one user's rows are disjoint and follow insertion order. */
  ghost predicate Ordered(rows: seq<Record>) {
    && (forall i | 0 <= i < |rows| && rows[i].supersededAt.Some? :: rows[i].recordedAt <= rows[i].supersededAt.value)
    && (forall i, j | 0 <= i < j < |rows| && rows[i].user == rows[j].user ::
          rows[i].supersededAt.Some? && rows[i].supersededAt.value <= rows[j].recordedAt)
  }

  /** No row outlives the last statement of the run. */
  ghost predicate DatedBy(rows: seq<Record>, t: Time) {
    forall i | 0 <= i < |rows| ::
      rows[i].recordedAt <= t && (rows[i].supersededAt.Some? ==> rows[i].supersededAt.value <= t)
  }

  lemma ApplyKeepsOrder(h: History, c: Call)
    requires Ordered(h.rows) && DatedBy(h.rows, c.supersedeAt) && c.supersedeAt <= LastAt(c)
    ensures Ordered(Apply(h, c).rows) && DatedBy(Apply(h, c).rows, LastAt(c))
  {
    var rows, n := Apply(h, c).rows, |h.rows|;
    forall i, j | 0 <= i < j < |rows| && rows[i].user == rows[j].user
      ensures rows[i].supersededAt.Some? && rows[i].supersededAt.value <= rows[j].recordedAt
    {
      assert rows[i].user == h.rows[i].user;
      if j < n {
        assert h.rows[i].supersededAt.Some? && h.rows[j].recordedAt == rows[j].recordedAt;
      }
    }
  }

  lemma {:induction false} ReplayIsOrdered(calls: seq<Call>)
    requires Chronological(calls)
    ensures Ordered(Replay(calls).rows)
    ensures forall t | calls == [] || LastAt(calls[|calls| - 1]) <= t :: DatedBy(Replay(calls).rows, t)
  {
    if calls != [] {
      ReplayIsOrdered(calls[..|calls| - 1]);
      ApplyKeepsOrder(Replay(calls[..|calls| - 1]), calls[|calls| - 1]);
    }
  }

  /** The user's last call that touched the table. */
  function LastCall(calls: seq<Call>, user: UserId): Option<Call> {
    if calls == [] then None
    else
      var c := calls[|calls| - 1];
      if c.user == user && !c.progress.NothingDone? then Some(c) else LastCall(calls[..|calls| - 1], user)
  }

  predicate IsOpen(rows: seq<Record>, user: UserId, k: nat) {
    k < |rows| && rows[k].user == user && rows[k].supersededAt.None?
  }

  /** Row `k` is the user's only open row, written by `c`; current_clearance_id names it
      exactly when `c` got to its last statement. */
  ghost predicate OpenedBy(h: History, user: UserId, c: Call, k: nat) {
    && IsOpen(h.rows, user, k) && h.rows[k] == NewRow(c)
    && (forall j: nat | IsOpen(h.rows, user, j) :: j == k)
    && (user in h.current && h.current[user] == k <==> c.progress.Completed?)
  }

  ghost predicate HasNoOpenRow(h: History, user: UserId) {
    forall j: nat :: !IsOpen(h.rows, user, j)
  }

  /** The table and the pointer as the user's last call leaves them. */
  ghost predicate LeftBy(h: History, user: UserId, last: Option<Call>) {
    && (user in h.current ==> h.current[user] < |h.rows| && h.rows[h.current[user]].user == user)
    && match last
       case None => user !in h.current && forall i | 0 <= i < |h.rows| :: h.rows[i].user != user
       case Some(c) => if Inserts(c) then exists k: nat :: OpenedBy(h, user, c, k) else HasNoOpenRow(h, user)
  }

  /** Another user's call, or one that does nothing, leaves the user's rows alone. */
  lemma OtherCall(h: History, c: Call, user: UserId, last: Option<Call>)
    requires LeftBy(h, user, last) && (c.user != user || c.progress.NothingDone?)
    ensures LeftBy(Apply(h, c), user, last)
  {
    var h' := Apply(h, c);
    assert forall j: nat :: IsOpen(h'.rows, user, j) <==> IsOpen(h.rows, user, j);
    if last.Some? && Inserts(last.value) {
      var k: nat :| OpenedBy(h, user, last.value, k);
      assert OpenedBy(h', user, last.value, k);
    }
  }

  lemma OwnCall(h: History, c: Call, last: Option<Call>)
    requires LeftBy(h, c.user, last) && !c.progress.NothingDone?
    ensures LeftBy(Apply(h, c), c.user, Some(c))
  {
    var h', n := Apply(h, c), |h.rows|;
    assert forall j: nat | j < n :: !IsOpen(h'.rows, c.user, j);
    if Inserts(c) {
      assert OpenedBy(h', c.user, c, n);
    }
  }

  lemma {:induction false} ReplayIsLeftByLastCall(calls: seq<Call>, user: UserId)
    ensures LeftBy(Replay(calls), user, LastCall(calls, user))
  {
    if calls != [] {
      var front, c := calls[..|calls| - 1], calls[|calls| - 1];
      ReplayIsLeftByLastCall(front, user);
      if c.user == user && !c.progress.NothingDone? {
        OwnCall(Replay(front), c, LastCall(front, user));
      } else {
        OtherCall(Replay(front), c, user, LastCall(front, user));
      }
    }
  }

  /** current_clearance_id names an open row of the user, and there is no other. */
  ghost predicate NamesOnlyOpenRow(h: History, user: UserId) {
    && user in h.current && IsOpen(h.rows, user, h.current[user])
    && forall j: nat | IsOpen(h.rows, user, j) :: j == h.current[user]
  }

  /** After any sequence of calls, a user with a record has exactly one open row, named by
      current_clearance_id, if and only if the user's last effective call completed. */
  lemma OneOpenRowPerUser(calls: seq<Call>, i: nat)
    requires i < |Replay(calls).rows|
    ensures var u := Replay(calls).rows[i].user;
            && LastCall(calls, u).Some?
            && (NamesOnlyOpenRow(Replay(calls), u) <==> LastCall(calls, u).value.progress.Completed?)
  {
    var h, u := Replay(calls), Replay(calls).rows[i].user;
    ReplayIsLeftByLastCall(calls, u);
    var c := LastCall(calls, u).value;
    if Inserts(c) {
      var k: nat :| OpenedBy(h, u, c, k);
    }
  }

  /** A first call that completes at 0, and a second one. */
  function TwoCalls(user: UserId, p: Params, supersedeAt: Time, insertAt: Time, progress: Progress): seq<Call> {
    [Call(0, user, p, 0, 0, Completed), Call(0, user, p, supersedeAt, insertAt, progress)]
  }

  lemma {:induction false} ReplayTwo(user: UserId, p: Params, supersedeAt: Time, insertAt: Time, progress: Progress)
    ensures var calls := TwoCalls(user, p, supersedeAt, insertAt, progress);
            && Replay(calls) == Apply(Replay([calls[0]]), calls[1])
            && Replay([calls[0]]) == History([NewRow(calls[0])], map[user := 0])
  {
    var calls := TwoCalls(user, p, supersedeAt, insertAt, progress);
    assert calls[..1] == [calls[0]] && [calls[0]][..0] == [];
    assert Supersede([], user, 0) == [];
    assert [] + [NewRow(calls[0])] == [NewRow(calls[0])];
  }

  /** A second call that stops after its first statement leaves the user without an open row;
      one that stops after its second leaves the pointer on the superseded row. */
  lemma {:induction false} PartialCallsLoseTheRow(user: UserId, p: Params)
    ensures var h := Replay(TwoCalls(user, p, 10, 10, OnlySuperseded));
            |h.rows| == 1 && HasNoOpenRow(h, user) && user in h.current && !NamesOnlyOpenRow(h, user)
    ensures var h := Replay(TwoCalls(user, p, 10, 10, NotRepointed));
            IsOpen(h.rows, user, 1) && user in h.current && h.current[user] == 0 && !NamesOnlyOpenRow(h, user)
  {
    ReplayTwo(user, p, 10, 10, OnlySuperseded);
    ReplayTwo(user, p, 10, 10, NotRepointed);
  }

  /** Wherever calls stop, the lifetimes of a user's rows are pairwise disjoint and ordered
      by insertion. */
  lemma LifetimesAreDisjoint(calls: seq<Call>, i: nat, j: nat, t: Time)
    requires Chronological(calls)
    requires var rows := Replay(calls).rows; i < j < |rows| && rows[i].user == rows[j].user
    ensures var rows := Replay(calls).rows; !(Covers(rows[i], t) && Covers(rows[j], t))
    ensures var rows := Replay(calls).rows; Covers(rows[i], t) ==> t < rows[j].recordedAt
  {
    ReplayIsOrdered(calls);
  }

  // ---------- The as-of join ----------

  /** `t` lies in the row's half-open lifetime: the join condition of the export. */
  predicate Covers(r: Record, t: Time) {
    r.recordedAt <= t && (r.supersededAt.None? || r.supersededAt.value > t)
  }

  /** ORDER BY recorded_at DESC LIMIT 1 over the user's covering rows. */
  function Snapshot(rows: seq<Record>, user: UserId, t: Time): (r: Option<nat>)
    ensures r.Some? ==> r.value < |rows| && rows[r.value].user == user && Covers(rows[r.value], t)
  {
    if rows == [] then None
    else
      var n := |rows| - 1;
      var best := Snapshot(rows[..n], user, t);
      if rows[n].user == user && Covers(rows[n], t) && (best.None? || rows[n].recordedAt > rows[best.value].recordedAt)
      then Some(n) else best
  }

  /** The clearance columns of one export row; an unreviewed visit gets none. */
  function ExportedClearance(h: History, visitor: UserId, reviewedAt: Option<Time>): Option<Clearance> {
    match reviewedAt
    case None => None
    case Some(t) =>
      match Snapshot(h.rows, visitor, t)
      case None => None
      case Some(i) => Some(h.rows[i].clearance)
  }

  lemma {:induction false} SnapshotNoneIff(rows: seq<Record>, user: UserId, t: Time)
    ensures Snapshot(rows, user, t).None? <==> forall i | 0 <= i < |rows| && rows[i].user == user :: !Covers(rows[i], t)
  {
    if rows != [] {
      SnapshotNoneIff(rows[..|rows| - 1], user, t);
      assert forall i | 0 <= i < |rows| - 1 :: rows[i] == rows[..|rows| - 1][i];
    }
  }

  lemma CoveredOnce(rows: seq<Record>, i: nat, j: nat, t: Time)
    requires Ordered(rows) && i < |rows| && j < |rows| && rows[i].user == rows[j].user
    requires Covers(rows[i], t) && Covers(rows[j], t)
    ensures i == j
  {
  }

  /** In a coherent history at most one row covers an instant, so the LIMIT never chooses. */
  lemma SnapshotIsUnique(rows: seq<Record>, user: UserId, t: Time, i: nat)
    requires Ordered(rows) && i < |rows| && rows[i].user == user && Covers(rows[i], t)
    ensures Snapshot(rows, user, t) == Some(i)
  {
    SnapshotNoneIff(rows, user, t);
    CoveredOnce(rows, i, Snapshot(rows, user, t).value, t);
  }

  /** The calls that were over by `t`. */
  function UpTo(calls: seq<Call>, t: Time): seq<Call> {
    if calls == [] then []
    else
      var front, c := UpTo(calls[..|calls| - 1], t), calls[|calls| - 1];
      if LastAt(c) <= t then front + [c] else front
  }

  /** The clearance of the user's open row. */
  function CurrentClearance(rows: seq<Record>, user: UserId): Option<Clearance> {
    if rows == [] then None
    else if IsOpen(rows, user, |rows| - 1) then Some(rows[|rows| - 1].clearance)
    else CurrentClearance(rows[..|rows| - 1], user)
  }

  /** `t` falls between the supersede and the insert of one of the user's calls. */
  ghost predicate InGap(calls: seq<Call>, user: UserId, t: Time) {
    exists i | 0 <= i < |calls| :: GapOf(calls[i], user, t)
  }

  predicate GapOf(c: Call, user: UserId, t: Time) {
    c.user == user && Inserts(c) && c.supersedeAt <= t < c.insertAt
  }

  lemma {:induction false} CurrentIs(rows: seq<Record>, user: UserId, k: nat)
    requires IsOpen(rows, user, k) && forall j: nat | IsOpen(rows, user, j) :: j == k
    ensures CurrentClearance(rows, user) == Some(rows[k].clearance)
  {
    var n := |rows| - 1;
    if k < n {
      assert forall j: nat | j < n :: IsOpen(rows[..n], user, j) <==> IsOpen(rows, user, j);
      CurrentIs(rows[..n], user, k);
    }
  }

  lemma {:induction false} NoCurrent(rows: seq<Record>, user: UserId)
    requires forall j: nat :: !IsOpen(rows, user, j)
    ensures CurrentClearance(rows, user) == None
  {
    if rows != [] {
      var n := |rows| - 1;
      assert forall j: nat | j < n :: IsOpen(rows[..n], user, j) <==> IsOpen(rows, user, j);
      NoCurrent(rows[..n], user);
    }
  }

  /** A replay leaves current what the user's last effective call inserted, and nothing if
      that call failed to insert. */
  lemma ReplayLeavesLastCall(calls: seq<Call>, user: UserId)
    ensures CurrentClearance(Replay(calls).rows, user) ==
            match LastCall(calls, user)
            case None => None
            case Some(c) => if Inserts(c) then Some(NewClearance(c.params)) else None
  {
    var h, last := Replay(calls), LastCall(calls, user);
    ReplayIsLeftByLastCall(calls, user);
    if last.Some? && Inserts(last.value) {
      var k: nat :| OpenedBy(h, user, last.value, k);
      CurrentIs(h.rows, user, k);
    } else {
      NoCurrent(h.rows, user);
    }
  }

  lemma {:induction false} UpToEverything(calls: seq<Call>, t: Time)
    requires forall i | 0 <= i < |calls| :: LastAt(calls[i]) <= t
    ensures UpTo(calls, t) == calls
  {
    if calls != [] {
      UpToEverything(calls[..|calls| - 1], t);
    }
  }

  /** What the export shows of a visit, field by field: nothing before its review; at a review
      that no call is in the middle of, the arguments of the visitor's last effective call. */
  lemma ExportedFields(calls: seq<Call>, user: UserId, reviewedAt: Option<Time>)
    requires Chronological(calls)
    ensures var exported := ExportedClearance(Replay(calls), user, reviewedAt);
            match reviewedAt
            case None => exported == None
            case Some(t) =>
              if InGap(calls, user, t) then exported == None
              else
                match LastCall(UpTo(calls, t), user)
                case None => exported == None
                case Some(c) =>
                  if Inserts(c) then exported.Some? && Carries(exported.value, c.params) else exported == None
  {
    if reviewedAt.Some? {
      ExportIsReplay(calls, user, reviewedAt.value);
      ReplayLeavesLastCall(UpTo(calls, reviewedAt.value), user);
    }
  }

  /** The export agrees with a replay of the calls that were over by the review: ties at one
      instant included, also when there is no record, and wherever calls stopped. The only
      exception is a review between a call's supersede and its insert, which finds nothing. */
  lemma {:induction false} ExportIsReplay(calls: seq<Call>, user: UserId, t: Time)
    requires Chronological(calls)
    ensures ExportedClearance(Replay(calls), user, Some(t)) ==
            if InGap(calls, user, t) then None else CurrentClearance(Replay(UpTo(calls, t)).rows, user)
  {
    if calls == [] {
    } else if LastAt(calls[|calls| - 1]) <= t {
      CurrentIsExported(calls, user, t);
    } else {
      var front, c := calls[..|calls| - 1], calls[|calls| - 1];
      ExportIsReplay(front, user, t);
      GapInFront(calls, user, t);
      ReplayIsOrdered(front);
      ReplayIsOrdered(calls);
      LaterCallExport(Replay(front), c, user, t);
    }
  }

  /** A review after every statement sees the open row, if there is one. */
  lemma OpenRowIsExported(h: History, user: UserId, t: Time, k: nat)
    requires Ordered(h.rows) && DatedBy(h.rows, t)
    requires IsOpen(h.rows, user, k) && forall j: nat | IsOpen(h.rows, user, j) :: j == k
    ensures ExportedClearance(h, user, Some(t)) == CurrentClearance(h.rows, user)
  {
    CurrentIs(h.rows, user, k);
    SnapshotIsUnique(h.rows, user, t, k);
  }

  lemma NothingIsExported(h: History, user: UserId, t: Time)
    requires DatedBy(h.rows, t) && HasNoOpenRow(h, user)
    ensures ExportedClearance(h, user, Some(t)) == CurrentClearance(h.rows, user)
  {
    NoCurrent(h.rows, user);
    SnapshotNoneIff(h.rows, user, t);
    assert forall i | 0 <= i < |h.rows| && h.rows[i].user == user :: !IsOpen(h.rows, user, i);
  }

  lemma CurrentIsExported(calls: seq<Call>, user: UserId, t: Time)
    requires Chronological(calls) && calls != [] && LastAt(calls[|calls| - 1]) <= t
    ensures !InGap(calls, user, t) && UpTo(calls, t) == calls
    ensures ExportedClearance(Replay(calls), user, Some(t)) == CurrentClearance(Replay(calls).rows, user)
  {
    var h, last := Replay(calls), LastCall(calls, user);
    AllInserted(calls, t);
    UpToEverything(calls, t);
    ReplayIsOrdered(calls);
    ReplayIsLeftByLastCall(calls, user);
    if last.Some? && Inserts(last.value) {
      var k: nat :| OpenedBy(h, user, last.value, k);
      OpenRowIsExported(h, user, t, k);
    } else {
      NothingIsExported(h, user, t);
    }
  }

  lemma AllInserted(calls: seq<Call>, t: Time)
    requires Chronological(calls) && calls != []
    requires LastAt(calls[|calls| - 1]) <= t
    ensures forall i | 0 <= i < |calls| :: LastAt(calls[i]) <= t
    ensures forall user :: !InGap(calls, user, t)
  {
  }

  lemma GapInFront(calls: seq<Call>, user: UserId, t: Time)
    requires calls != []
    ensures var front, c := calls[..|calls| - 1], calls[|calls| - 1];
            InGap(calls, user, t) <==> InGap(front, user, t) || GapOf(c, user, t)
  {
    var front, n := calls[..|calls| - 1], |calls| - 1;
    if InGap(front, user, t) {
      var i :| 0 <= i < |front| && GapOf(front[i], user, t);
      assert calls[i] == front[i];
    }
    if InGap(calls, user, t) {
      var i :| 0 <= i < |calls| && GapOf(calls[i], user, t);
      assert i < n ==> front[i] == calls[i];
    }
  }

  /** A call that ends after `t` leaves the snapshot at `t` alone, unless `t` is in its gap;
      then nothing covers `t`. */
  lemma LaterCallExport(h: History, c: Call, user: UserId, t: Time)
    requires Ordered(h.rows) && Ordered(Apply(h, c).rows) && t < LastAt(c) && DatedBy(h.rows, c.supersedeAt)
    ensures ExportedClearance(Apply(h, c), user, Some(t)) ==
            if GapOf(c, user, t) then None else ExportedClearance(h, user, Some(t))
  {
    if GapOf(c, user, t) {
      LaterCallHides(h, c, t);
      SnapshotNoneIff(Apply(h, c).rows, user, t);
    } else {
      LaterCallCovers(h, c, user, t);
      SameSnapshot(h.rows, Apply(h, c).rows, user, t);
    }
  }

  lemma {:induction false} SameSnapshot(before: seq<Record>, after: seq<Record>, user: UserId, t: Time)
    requires Ordered(after) && SameCover(before, after, user, t)
    ensures Snapshot(after, user, t) == Snapshot(before, user, t)
  {
    SnapshotNoneIff(before, user, t);
    SnapshotNoneIff(after, user, t);
    var s := Snapshot(before, user, t);
    if s.Some? {
      SnapshotIsUnique(after, user, t, s.value);
    } else {
      assert forall i | 0 <= i < |after| && after[i].user == user :: !Covers(after[i], t);
    }
  }

  /** The later table covers `t` for the user by the same rows as the earlier one. */
  ghost predicate SameCover(before: seq<Record>, after: seq<Record>, user: UserId, t: Time) {
    && |after| >= |before|
    && (forall i | |before| <= i < |after| :: !Covers(after[i], t))
    && (forall i | 0 <= i < |before| ::
          after[i].user == before[i].user && after[i].clearance == before[i].clearance &&
          (before[i].user == user ==> (Covers(after[i], t) <==> Covers(before[i], t))))
  }

  lemma LaterCallHides(h: History, c: Call, t: Time)
    requires Inserts(c) && c.supersedeAt <= t < c.insertAt && DatedBy(h.rows, c.supersedeAt)
    ensures var rows := Apply(h, c).rows; forall i | 0 <= i < |rows| && rows[i].user == c.user :: !Covers(rows[i], t)
  {
  }

  lemma LaterCallCovers(h: History, c: Call, user: UserId, t: Time)
    requires t < LastAt(c) && !GapOf(c, user, t)
    ensures SameCover(h.rows, Apply(h, c).rows, user, t)
  {
  }

  /** A review that falls between the two statements of a second call exports nothing, although
      the user had a clearance before and after. */
  lemma {:induction false} ReviewInGapFindsNothing(user: UserId, p: Params)
    ensures var calls := TwoCalls(user, p, 10, 20, Completed);
            && Chronological(calls) && InGap(calls, user, 15)
            && ExportedClearance(Replay(calls), user, Some(15)) == None
            && ExportedClearance(Replay(calls), user, Some(9)) == Some(NewClearance(p))
            && ExportedClearance(Replay(calls), user, Some(20)) == Some(NewClearance(p))
  {
    var calls := TwoCalls(user, p, 10, 20, Completed);
    var first, second := NewRow(calls[0]).(supersededAt := Some(10)), NewRow(calls[1]);
    TwoRows(user, p);
    assert GapOf(calls[1], user, 15);
    SnapshotNoneIff([first, second], user, 15);
    SnapshotIsUnique([first, second], user, 9, 0);
    SnapshotIsUnique([first, second], user, 20, 1);
  }

  lemma {:induction false} TwoRows(user: UserId, p: Params)
    ensures var calls := TwoCalls(user, p, 10, 20, Completed);
            Replay(calls).rows == [NewRow(calls[0]).(supersededAt := Some(10)), NewRow(calls[1])]
  {
    ReplayTwo(user, p, 10, 20, Completed);
  }

  /** Reviews are immutable evidence: a call made after a review never changes its export. */
  lemma LaterCallsDoNotRewriteHistory(calls: seq<Call>, later: Call, user: UserId, t: Time)
    requires Chronological(calls + [later]) && t < later.supersedeAt
    ensures ExportedClearance(Replay(calls + [later]), user, Some(t)) == ExportedClearance(Replay(calls), user, Some(t))
  {
    var all := calls + [later];
    assert all[..|all| - 1] == calls && all[|all| - 1] == later;
    assert Chronological(calls) by {
      assert forall i | 0 <= i < |calls| :: calls[i] == all[i];
    }
    ReplayIsOrdered(calls);
    ReplayIsOrdered(all);
    if calls != [] { assert LastAt(all[|calls| - 1]) <= all[|calls|].supersedeAt; }
    LaterCallExport(Replay(calls), later, user, t);
  }
}
