/** Clearance history statement by statement. SetClearance runs no transaction, so the three
    statements of one call may mix with those of another; nothing below assumes that calls
    do not overlap, or that they complete. */
module ClearanceStatements {
  import opened Wrappers
  import opened Clock
  import opened ClearanceHistory

  datatype Statement =
    | SupersedeOpen(user: UserId, at: Time)
    | InsertRow(user: UserId, clearance: Clearance, at: Time)
    | Repoint(user: UserId, id: nat, at: Time)

  function Execute(h: History, st: Statement): History {
    match st
    case SupersedeOpen(user, at) => h.(rows := Supersede(h.rows, user, at))
    case InsertRow(user, clearance, at) => h.(rows := h.rows + [Record(user, clearance, at, None)])
    case Repoint(user, id, _) => h.(current := h.current[user := id])
  }

  function Run(sts: seq<Statement>): History {
    if sts == [] then History([], map[]) else Execute(Run(sts[..|sts| - 1]), sts[|sts| - 1])
  }

  lemma {:induction false} RunOne(sts: seq<Statement>, st: Statement)
    ensures Run(sts + [st]) == Execute(Run(sts), st)
  {
    assert (sts + [st])[..|sts|] == sts;
  }

  // ---------- Which rows are open ----------

  /** The rows a user's statements leave open: those inserted since the last supersede. */
  function OpenIds(sts: seq<Statement>, user: UserId): set<nat> {
    if sts == [] then {}
    else
      var front := sts[..|sts| - 1];
      match sts[|sts| - 1]
      case SupersedeOpen(u, _) => if u == user then {} else OpenIds(front, user)
      case InsertRow(u, _, _) => if u == user then OpenIds(front, user) + {|Run(front).rows|} else OpenIds(front, user)
      case Repoint(_, _, _) => OpenIds(front, user)
  }

  lemma {:induction false} OpenRowsAre(sts: seq<Statement>, user: UserId)
    ensures forall i: nat :: IsOpen(Run(sts).rows, user, i) <==> i in OpenIds(sts, user)
  {
    if sts != [] {
      var front := sts[..|sts| - 1];
      OpenRowsAre(front, user);
      forall i: nat
        ensures IsOpen(Run(sts).rows, user, i) <==> i in OpenIds(sts, user)
      {
        assert IsOpen(Run(front).rows, user, i) <==> i in OpenIds(front, user);
      }
    }
  }

  /** The id of the user's last repoint. */
  function LastRepoint(sts: seq<Statement>, user: UserId): Option<nat> {
    if sts == [] then None
    else
      var st := sts[|sts| - 1];
      if st.Repoint? && st.user == user then Some(st.id) else LastRepoint(sts[..|sts| - 1], user)
  }

  lemma {:induction false} PointerIs(sts: seq<Statement>, user: UserId)
    ensures LastRepoint(sts, user) == if user in Run(sts).current then Some(Run(sts).current[user]) else None
  {
    if sts != [] { PointerIs(sts[..|sts| - 1], user); }
  }

  /** After any statements, the user has exactly one open row, named by current_clearance_id, if
      and only if exactly one row was inserted since the last supersede and the last repoint
      names it. */
  lemma OneOpenRowIff(sts: seq<Statement>, user: UserId)
    ensures NamesOnlyOpenRow(Run(sts), user) <==>
            LastRepoint(sts, user).Some? && OpenIds(sts, user) == {LastRepoint(sts, user).value}
  {
    var h := Run(sts);
    OpenRowsAre(sts, user);
    PointerIs(sts, user);
    if LastRepoint(sts, user).Some? {
      var k := h.current[user];
      assert IsOpen(h.rows, user, k) <==> k in OpenIds(sts, user);
      if NamesOnlyOpenRow(h, user) {
        forall i | i in OpenIds(sts, user)
          ensures i == k
        {
          assert IsOpen(h.rows, user, i);
        }
        assert OpenIds(sts, user) == {k};
      }
    }
  }

  // ---------- The as-of join is a replay ----------

  ghost predicate InOrder(sts: seq<Statement>) {
    forall i, j | 0 <= i < j < |sts| :: sts[i].at <= sts[j].at
  }

  /** The statements executed by `t`. */
  function UpTo(sts: seq<Statement>, t: Time): seq<Statement> {
    if sts == [] then []
    else
      var front, st := UpTo(sts[..|sts| - 1], t), sts[|sts| - 1];
      if st.at <= t then front + [st] else front
  }

  lemma {:induction false} UpToEverything(sts: seq<Statement>, t: Time)
    requires forall i | 0 <= i < |sts| :: sts[i].at <= t
    ensures UpTo(sts, t) == sts
    ensures forall i | 0 <= i < |Run(sts).rows| ::
              var r := Run(sts).rows[i]; r.recordedAt <= t && (r.supersededAt.Some? ==> r.supersededAt.value <= t)
  {
    if sts != [] {
      UpToEverything(sts[..|sts| - 1], t);
    }
  }

  lemma {:induction false} UpToIsShorter(sts: seq<Statement>, t: Time)
    requires InOrder(sts)
    ensures |Run(UpTo(sts, t)).rows| <= |Run(sts).rows|
    ensures forall i | 0 <= i < |Run(UpTo(sts, t)).rows| ::
              var r, s := Run(UpTo(sts, t)).rows[i], Run(sts).rows[i];
              r.user == s.user && r.clearance == s.clearance && r.recordedAt == s.recordedAt
  {
    if sts != [] {
      var st := sts[|sts| - 1];
      if st.at <= t {
        UpToEverything(sts, t);
      } else {
        UpToIsShorter(sts[..|sts| - 1], t);
      }
    }
  }

  /** A row covers `t` if and only if a replay of the statements executed by `t` leaves it open. */
  lemma {:induction false} CoversIff(sts: seq<Statement>, t: Time, i: nat)
    requires InOrder(sts) && i < |Run(sts).rows|
    ensures Covers(Run(sts).rows[i], t) <==> IsOpen(Run(UpTo(sts, t)).rows, Run(sts).rows[i].user, i)
  {
    var front, st := sts[..|sts| - 1], sts[|sts| - 1];
    if st.at <= t {
      UpToEverything(sts, t);
    } else {
      UpToIsShorter(front, t);
      if i < |Run(front).rows| {
        CoversIff(front, t, i);
      }
    }
  }

  /** The join may return row `i`: it covers `t`, and none of the user's covering rows is newer.
      The query leaves open which of several it takes. */
  ghost predicate MayExport(rows: seq<Record>, user: UserId, t: Time, i: nat) {
    && i < |rows| && rows[i].user == user && Covers(rows[i], t)
    && forall j | 0 <= j < |rows| && rows[j].user == user && Covers(rows[j], t) ::
         rows[j].recordedAt <= rows[i].recordedAt
  }

  lemma {:induction false} SnapshotMayBeExported(rows: seq<Record>, user: UserId, t: Time)
    ensures match Snapshot(rows, user, t)
            case None => forall i: nat :: !MayExport(rows, user, t, i)
            case Some(i) => MayExport(rows, user, t, i)
  {
    SnapshotNoneIff(rows, user, t);
    if Snapshot(rows, user, t).Some? { SnapshotIsNewest(rows, user, t); }
  }

  lemma {:induction false} SnapshotIsNewest(rows: seq<Record>, user: UserId, t: Time)
    requires Snapshot(rows, user, t).Some?
    ensures forall j | 0 <= j < |rows| && rows[j].user == user && Covers(rows[j], t) ::
              rows[j].recordedAt <= rows[Snapshot(rows, user, t).value].recordedAt
  {
    var front := rows[..|rows| - 1];
    assert forall j | 0 <= j < |front| :: front[j] == rows[j];
    if Snapshot(front, user, t).Some? {
      SnapshotIsNewest(front, user, t);
    } else {
      SnapshotNoneIff(front, user, t);
    }
  }

  /** For any statements, overlapping calls included: the export of a review at `t` may show a
      row if and only if replaying the statements executed by `t` leaves it open and no other
      row it leaves open for the user is newer. It shows nothing if and only if that replay
      leaves no row open. */
  lemma ExportIsReplayOfStatements(sts: seq<Statement>, user: UserId, t: Time, i: nat)
    requires InOrder(sts)
    ensures var open, rows := OpenIds(UpTo(sts, t), user), Run(sts).rows;
            && (forall j | j in open :: j < |rows|)
            && (MayExport(rows, user, t, i) <==>
                i in open && forall j | j in open :: rows[j].recordedAt <= rows[i].recordedAt)
            && (ExportedClearance(Run(sts), user, Some(t)) == None <==> open == {})
            && (open == {i} ==> ExportedClearance(Run(sts), user, Some(t)) == Some(rows[i].clearance))
  {
    var open, rows := OpenIds(UpTo(sts, t), user), Run(sts).rows;
    OpenIsCovering(sts, user, t);
    SnapshotNoneIff(rows, user, t);
    if open != {} {
      var j :| j in open;
      assert rows[j].user == user && Covers(rows[j], t);
    }
  }

  lemma {:induction false} OpenIsCovering(sts: seq<Statement>, user: UserId, t: Time)
    requires InOrder(sts)
    ensures forall j: nat :: j in OpenIds(UpTo(sts, t), user) <==>
              j < |Run(sts).rows| && Run(sts).rows[j].user == user && Covers(Run(sts).rows[j], t)
  {
    UpToIsShorter(sts, t);
    OpenRowsAre(UpTo(sts, t), user);
    forall j: nat
      ensures j in OpenIds(UpTo(sts, t), user) <==>
              j < |Run(sts).rows| && Run(sts).rows[j].user == user && Covers(Run(sts).rows[j], t)
    {
      assert j in OpenIds(UpTo(sts, t), user) <==> IsOpen(Run(UpTo(sts, t)).rows, user, j);
      if j < |Run(sts).rows| { CoversIff(sts, t, j); }
    }
  }

  /** The lifetimes of two rows meet at `t` if and only if that replay leaves both open. */
  lemma LifetimesMeetIff(sts: seq<Statement>, user: UserId, t: Time, i: nat, j: nat)
    requires InOrder(sts) && i < |Run(sts).rows| && j < |Run(sts).rows|
    requires Run(sts).rows[i].user == user && Run(sts).rows[j].user == user
    ensures Covers(Run(sts).rows[i], t) && Covers(Run(sts).rows[j], t) <==>
            i in OpenIds(UpTo(sts, t), user) && j in OpenIds(UpTo(sts, t), user)
  {
    OpenIsCovering(sts, user, t);
  }

  lemma {:induction false} UpToAppend(sts: seq<Statement>, later: seq<Statement>, t: Time)
    requires forall k | 0 <= k < |later| :: later[k].at > t
    ensures UpTo(sts + later, t) == UpTo(sts, t)
  {
    if later == [] {
      assert sts + later == sts;
    } else {
      assert (sts + later)[..|sts + later| - 1] == sts + later[..|later| - 1];
      UpToAppend(sts, later[..|later| - 1], t);
    }
  }

  /** No statement executed after a review changes what its export may show, whatever calls it
      belongs to. */
  lemma LaterStatementsDoNotRewrite(sts: seq<Statement>, later: seq<Statement>, user: UserId, t: Time, i: nat)
    requires InOrder(sts + later) && forall k | 0 <= k < |later| :: later[k].at > t
    ensures MayExport(Run(sts + later).rows, user, t, i) <==> MayExport(Run(sts).rows, user, t, i)
    ensures MayExport(Run(sts).rows, user, t, i) ==>
              i < |Run(sts + later).rows| && Run(sts + later).rows[i].clearance == Run(sts).rows[i].clearance
  {
    assert InOrder(sts) by {
      assert forall k | 0 <= k < |sts| :: sts[k] == (sts + later)[k];
    }
    UpToAppend(sts, later, t);
    ExportIsReplayOfStatements(sts, user, t, i);
    ExportIsReplayOfStatements(sts + later, user, t, i);
    OpenIsOld(sts, user, t);
    OpenIsOld(sts + later, user, t);
  }

  /** A row open at `t` is in the table of the statements executed by `t`, as it was inserted. */
  lemma {:induction false} OpenIsOld(sts: seq<Statement>, user: UserId, t: Time)
    requires InOrder(sts)
    ensures forall j | j in OpenIds(UpTo(sts, t), user) ::
              && j < |Run(UpTo(sts, t)).rows| && j < |Run(sts).rows|
              && Run(sts).rows[j].clearance == Run(UpTo(sts, t)).rows[j].clearance
              && Run(sts).rows[j].recordedAt == Run(UpTo(sts, t)).rows[j].recordedAt
  {
    UpToIsShorter(sts, t);
    OpenRowsAre(UpTo(sts, t), user);
    assert forall j | j in OpenIds(UpTo(sts, t), user) :: IsOpen(Run(UpTo(sts, t)).rows, user, j);
  }

  // ---------- Calls that do not overlap ----------

  /** The statements of one call, as far as it got. */
  function StatementsOf(c: Call, id: nat): seq<Statement> {
    var supersede := SupersedeOpen(c.user, c.supersedeAt);
    var insert := InsertRow(c.user, NewClearance(c.params), c.insertAt);
    match c.progress
    case NothingDone => []
    case OnlySuperseded => [supersede]
    case NotRepointed => [supersede, insert]
    case Completed => [supersede, insert, Repoint(c.user, id, c.insertAt)]
  }

  function Statements(calls: seq<Call>): seq<Statement> {
    if calls == [] then []
    else
      var front := Statements(calls[..|calls| - 1]);
      front + StatementsOf(calls[|calls| - 1], |Run(front).rows|)
  }

  lemma {:induction false} CallRuns(sts: seq<Statement>, c: Call)
    ensures Run(sts + StatementsOf(c, |Run(sts).rows|)) == Apply(Run(sts), c)
  {
    var n := |Run(sts).rows|;
    var all := StatementsOf(c, n);
    if c.progress.NothingDone? {
      assert sts + all == sts;
    } else {
      RunOne(sts, all[0]);
      if Inserts(c) {
        RunOne(sts + [all[0]], all[1]);
        if c.progress.Completed? {
          RunOne(sts + [all[0]] + [all[1]], all[2]);
          assert sts + all == sts + [all[0]] + [all[1]] + [all[2]];
        } else {
          assert sts + all == sts + [all[0]] + [all[1]];
        }
      } else {
        assert sts + all == sts + [all[0]];
      }
    }
  }

  /** A replay of calls that do not overlap is a run of their statements, so everything above
      holds of it. */
  lemma {:induction false} ReplayRunsStatements(calls: seq<Call>)
    ensures Replay(calls) == Run(Statements(calls))
  {
    if calls != [] {
      ReplayRunsStatements(calls[..|calls| - 1]);
      CallRuns(Statements(calls[..|calls| - 1]), calls[|calls| - 1]);
    }
  }

  // ---------- Calls that do ----------

  /** Two calls for one user that both complete, the first one's insert after the second one's
      supersede. */
  function Overlapping(user: UserId, a: Clearance, b: Clearance): seq<Statement> {
    [SupersedeOpen(user, 10), SupersedeOpen(user, 11), InsertRow(user, a, 12), InsertRow(user, b, 14),
     Repoint(user, 0, 15), Repoint(user, 1, 15)]
  }

  /** They leave two open rows, so the LIMIT does choose; and a review at 13, between the second
      call's supersede and insert, still finds the first call's row. */
  lemma {:induction false} OverlappingCallsLeaveTwoOpenRows(user: UserId, a: Clearance, b: Clearance)
    ensures var h := Run(Overlapping(user, a, b));
            && h.rows == [Record(user, a, 12, None), Record(user, b, 14, None)]
            && h.current == map[user := 1] && !NamesOnlyOpenRow(h, user)
            && Covers(h.rows[0], 14) && Covers(h.rows[1], 14)
            && ExportedClearance(h, user, Some(13)) == Some(a)
  {
    var sts := Overlapping(user, a, b);
    assert Supersede([], user, 10) == [] && Supersede([], user, 11) == [];
    var r, s := Record(user, a, 12, None), Record(user, b, 14, None);
    OverlappingRuns(user, a, b);
    assert Snapshot([r, s], user, 13) == Some(0) by {
      assert [r, s][..1] == [r] && [r][..0] == [];
    }
    assert IsOpen([r, s], user, 0);
  }

  lemma {:induction false} OverlappingRuns(user: UserId, a: Clearance, b: Clearance)
    ensures Run(Overlapping(user, a, b)) ==
            History([Record(user, a, 12, None), Record(user, b, 14, None)], map[user := 1])
  {
    var sts := Overlapping(user, a, b);
    var empty: seq<Statement> := [];
    RunOne(empty, sts[0]);
    RunOne(sts[..1], sts[1]);
    RunOne(sts[..2], sts[2]);
    RunOne(sts[..3], sts[3]);
    RunOne(sts[..4], sts[4]);
    RunOne(sts[..5], sts[5]);
    assert empty + [sts[0]] == sts[..1] && sts[..1] + [sts[1]] == sts[..2] && sts[..2] + [sts[2]] == sts[..3];
    assert sts[..3] + [sts[3]] == sts[..4] && sts[..4] + [sts[4]] == sts[..5] && sts[..5] + [sts[5]] == sts;
    assert Supersede([], user, 10) == [] && Supersede([], user, 11) == [];
  }
}
