/** The daily digest (backend/internal/digest/digest.go): the pass over all recipients, and
    the windows of "new" events one user's digests cover. */
module DigestWindows {
  import opened Wrappers
  import opened Clock

  const MIN_GAP := 23 * HOUR
  const FIRST_WINDOW := 24 * HOUR

  /** `optedIn` is the rest of the recipient filter: daily_summary, activated, an email. */
  datatype User = User(optedIn: bool, last: Option<Time>)

  /** What happens to one recipient in a pass: when the counts run and whether they succeed,
      whether the sender succeeds, and when the mark commits (None if it fails). `created`
      and `standing` are the user's events and open items at that time. */
  datatype Turn = Turn(listAt: Time, countAt: Time, countOk: bool, created: seq<Time>, standing: nat,
                       sendOk: bool, markAt: Option<Time>)

  datatype Disposition = NotListed | Sent | SkippedEmpty | Failed

  predicate Eligible(u: User, listAt: Time) {
    u.optedIn && (u.last.None? || u.last.value < listAt - MIN_GAP)
  }

  /** The lower end of the window: the last digest, or 24 hours before the first. */
  function Since(u: User, t: Turn): Time {
    if u.last.Some? then u.last.value else t.countAt - FIRST_WINDOW
  }

  /** Events that exist when the counts run and are newer than the window's lower end. */
  function CountNew(created: seq<Time>, since: Time, now: Time): nat {
    if created == [] then 0
    else
      var n := |created| - 1;
      CountNew(created[..n], since, now) + if since < created[n] <= now then 1 else 0
  }

  /** The recursion counts each event of the window once. */
  lemma {:induction false} CountNewIsWindowSize(created: seq<Time>, since: Time, now: Time)
    ensures CountNew(created, since, now) == |Newer(created, since, now)|
  {
    if created == [] {
      assert Newer(created, since, now) == {};
    } else {
      var n := |created| - 1;
      CountNewIsWindowSize(created[..n], since, now);
      assert Newer(created, since, now) ==
             Newer(created[..n], since, now) + if since < created[n] <= now then {n} else {};
    }
  }

  /** The positions of the events in the half-open window (since, now]. */
  function Newer(created: seq<Time>, since: Time, now: Time): set<nat> {
    set k: nat | k < |created| && since < created[k] <= now
  }

  function Dispose(u: User, t: Turn): Disposition {
    if !Eligible(u, t.listAt) then NotListed
    else if !t.countOk then Failed
    else if CountNew(t.created, Since(u, t), t.countAt) + t.standing > 0 then (if t.sendOk then Sent else Failed)
    else SkippedEmpty
  }

  /** When a user is mailed, in seconds: opted in, not marked within 23 hours of the listing, the
      counts and the sender working, and something to say: an open item, or an event since the
      last digest, or since 24 hours ago. */
  lemma MailedIff(u: User, t: Turn)
    ensures var since := if u.last == None then t.countAt - 86400 else u.last.value;
            var listed := u.optedIn && (u.last == None || u.last.value < t.listAt - 82800);
            var content := t.standing > 0 || exists k | 0 <= k < |t.created| :: since < t.created[k] <= t.countAt;
            && (Dispose(u, t) == Sent <==> listed && t.countOk && content && t.sendOk)
            && (Dispose(u, t) == SkippedEmpty <==> listed && t.countOk && !content)
            && (Dispose(u, t) == Failed <==> listed && (!t.countOk || (content && !t.sendOk)))
            && (Dispose(u, t) == NotListed <==> !listed)
  {
    var since := Since(u, t);
    CountNewIsWindowSize(t.created, since, t.countAt);
    if k :| 0 <= k < |t.created| && since < t.created[k] <= t.countAt {
      assert k in Newer(t.created, since, t.countAt);
    } else {
      assert Newer(t.created, since, t.countAt) == {};
    }
  }

  /** The pass ran to its mark for this user. */
  predicate Completed(u: User, t: Turn) {
    Dispose(u, t) == Sent || Dispose(u, t) == SkippedEmpty
  }

  function After(u: User, t: Turn): User {
    if Completed(u, t) && t.markAt.Some? then u.(last := t.markAt) else u
  }

  // ---------- The pass ----------

  function Recipients(users: seq<User>, listAt: Time): seq<nat> {
    if users == [] then []
    else
      var n := |users| - 1;
      Recipients(users[..n], listAt) + if Eligible(users[n], listAt) then [n] else []
  }

  lemma {:induction false} RecipientsAreEligible(users: seq<User>, listAt: Time)
    ensures forall i :: i in Recipients(users, listAt) <==> 0 <= i < |users| && Eligible(users[i], listAt)
    ensures AllBelow(Recipients(users, listAt), |users|)
    ensures Distinct(Recipients(users, listAt))
  {
    if users != [] {
      var n := |users| - 1;
      RecipientsAreEligible(users[..n], listAt);
      assert forall i | 0 <= i < n :: users[i] == users[..n][i];
      var front, all := Recipients(users[..n], listAt), Recipients(users, listAt);
      assert forall i | 0 <= i < |front| :: all[i] == front[i] && front[i] in front;
    }
  }

  /** The users whose turn ends in `d`. */
  function With(d: Disposition, users: seq<User>, turns: seq<Turn>): set<nat>
    requires |turns| == |users|
  {
    set i: nat | i < |users| && Dispose(users[i], turns[i]) == d
  }

  /** The counters of a pass. */
  datatype Counters = Counters(sent: nat, skipped: nat, failed: nat)

  function Add(c: Counters, d: Disposition): Counters {
    match d
    case Sent => c.(sent := c.sent + 1)
    case SkippedEmpty => c.(skipped := c.skipped + 1)
    case Failed => c.(failed := c.failed + 1)
    case NotListed => c
  }

  ghost predicate AllBelow(ids: seq<nat>, n: nat) {
    forall k | 0 <= k < |ids| :: ids[k] < n
  }

  /** The counters after the first k turns of a pass. */
  function Totals(users: seq<User>, turns: seq<Turn>, ids: seq<nat>, k: nat): Counters
    requires |turns| == |users| && AllBelow(ids, |users|) && k <= |ids|
  {
    if k == 0 then Counters(0, 0, 0)
    else Add(Totals(users, turns, ids, k - 1), Dispose(users[ids[k - 1]], turns[ids[k - 1]]))
  }

  /** The users after the first k turns of a pass. */
  function AfterTurns(users: seq<User>, turns: seq<Turn>, ids: seq<nat>, k: nat): (r: seq<User>)
    requires |turns| == |users| && AllBelow(ids, |users|) && k <= |ids|
    ensures |r| == |users|
  {
    if k == 0 then users
    else AfterTurns(users, turns, ids, k - 1)[ids[k - 1] := After(users[ids[k - 1]], turns[ids[k - 1]])]
  }

  ghost predicate Distinct(ids: seq<nat>) {
    forall i, j | 0 <= i < j < |ids| :: ids[i] != ids[j]
  }

  lemma {:induction false} AfterTurnsOf(users: seq<User>, turns: seq<Turn>, ids: seq<nat>, k: nat, i: nat)
    requires |turns| == |users| && AllBelow(ids, |users|) && Distinct(ids) && k <= |ids| && i < |users|
    ensures AfterTurns(users, turns, ids, k)[i] == if i in ids[..k] then After(users[i], turns[i]) else users[i]
  {
    if k > 0 {
      AfterTurnsOf(users, turns, ids, k - 1, i);
      assert ids[..k] == ids[..k - 1] + [ids[k - 1]];
    }
  }

  /** The user of turn k has not been touched by the earlier ones. */
  lemma NotYet(users: seq<User>, turns: seq<Turn>, ids: seq<nat>, k: nat)
    requires |turns| == |users| && AllBelow(ids, |users|) && Distinct(ids) && k < |ids|
    ensures AfterTurns(users, turns, ids, k)[ids[k]] == users[ids[k]]
  {
    AfterTurnsOf(users, turns, ids, k, ids[k]);
  }

  /** The listed users whose turn ends in `d`. */
  function ListedWith(d: Disposition, users: seq<User>, turns: seq<Turn>, ids: seq<nat>): set<nat>
    requires |turns| == |users|
  {
    set i: nat | i in ids && i < |users| && Dispose(users[i], turns[i]) == d
  }

  function CounterOf(c: Counters, d: Disposition): nat {
    match d case Sent => c.sent case SkippedEmpty => c.skipped case Failed => c.failed case NotListed => 0
  }

  /** The counters count distinct users by disposition. */
  lemma {:induction false} TotalIsSize(d: Disposition, users: seq<User>, turns: seq<Turn>, ids: seq<nat>, k: nat)
    requires d != NotListed
    requires |turns| == |users| && AllBelow(ids, |users|) && Distinct(ids) && k <= |ids|
    ensures CounterOf(Totals(users, turns, ids, k), d) == |ListedWith(d, users, turns, ids[..k])|
  {
    if k == 0 {
      assert ListedWith(d, users, turns, ids[..0]) == {};
    } else {
      TotalIsSize(d, users, turns, ids, k - 1);
      assert ids[..k] == ids[..k - 1] + [ids[k - 1]];
      assert ids[k - 1] !in ids[..k - 1];
      OneMoreListed(d, users, turns, ids[..k - 1], ids[k - 1]);
    }
  }

  lemma {:induction false} OneMoreListed(d: Disposition, users: seq<User>, turns: seq<Turn>, ids: seq<nat>, i: nat)
    requires |turns| == |users| && i < |users| && i !in ids
    ensures |ListedWith(d, users, turns, ids + [i])| ==
            |ListedWith(d, users, turns, ids)| + if Dispose(users[i], turns[i]) == d then 1 else 0
  {
    var before, after := ListedWith(d, users, turns, ids), ListedWith(d, users, turns, ids + [i]);
    if Dispose(users[i], turns[i]) == d {
      assert after == before + {i} && i !in before;
    } else {
      assert after == before;
    }
  }

  lemma {:induction false} TotalsAddUp(users: seq<User>, turns: seq<Turn>, ids: seq<nat>, k: nat)
    requires |turns| == |users| && AllBelow(ids, |users|) && k <= |ids|
    requires forall j | 0 <= j < |ids| :: Dispose(users[ids[j]], turns[ids[j]]) != NotListed
    ensures var c := Totals(users, turns, ids, k); c.sent + c.skipped + c.failed == k
  {
    if k > 0 {
      TotalsAddUp(users, turns, ids, k - 1);
    }
  }

  lemma AllListed(users: seq<User>, turns: seq<Turn>, listAt: Time, d: Disposition)
    requires |turns| == |users| && d != NotListed && forall i | 0 <= i < |turns| :: turns[i].listAt == listAt
    ensures ListedWith(d, users, turns, Recipients(users, listAt)) == With(d, users, turns)
  {
    RecipientsAreEligible(users, listAt);
  }

  /** A whole pass: every user has had its own turn, listed or not. */
  lemma {:induction false} EveryTurnTaken(users: seq<User>, turns: seq<Turn>, listAt: Time, i: nat)
    requires |turns| == |users| && i < |users| && turns[i].listAt == listAt
    ensures var ids := Recipients(users, listAt);
            AllBelow(ids, |users|) && AfterTurns(users, turns, ids, |ids|)[i] == After(users[i], turns[i])
  {
    var ids := Recipients(users, listAt);
    RecipientsAreEligible(users, listAt);
    AfterTurnsOf(users, turns, ids, |ids|, i);
    assert ids[..|ids|] == ids;
  }

  /** The counters of a whole pass are exact and account for every recipient. */
  lemma {:induction false} PassTotals(users: seq<User>, turns: seq<Turn>, listAt: Time)
    requires |turns| == |users| && forall i | 0 <= i < |turns| :: turns[i].listAt == listAt
    ensures var ids := Recipients(users, listAt);
            && AllBelow(ids, |users|)
            && var c := Totals(users, turns, ids, |ids|);
            && c.sent == |With(Sent, users, turns)| && c.skipped == |With(SkippedEmpty, users, turns)|
            && c.failed == |With(Failed, users, turns)| && c.sent + c.skipped + c.failed == |ids|
  {
    var ids := Recipients(users, listAt);
    RecipientsAreEligible(users, listAt);
    forall j | 0 <= j < |ids|
      ensures Dispose(users[ids[j]], turns[ids[j]]) != NotListed
    {
      assert ids[j] in ids;
    }
    TotalsAddUp(users, turns, ids, |ids|);
    TotalIsSize(Sent, users, turns, ids, |ids|);
    TotalIsSize(SkippedEmpty, users, turns, ids, |ids|);
    TotalIsSize(Failed, users, turns, ids, |ids|);
    assert ids[..|ids|] == ids;
    AllListed(users, turns, listAt, Sent);
    AllListed(users, turns, listAt, SkippedEmpty);
    AllListed(users, turns, listAt, Failed);
  }

  class DigestService {
    var users: seq<User>

    constructor (users: seq<User>)
      ensures this.users == users
    {
      this.users := users;
    }

    /** One run. Every user ends up as its own turn says, the counters say how many were
        sent, skipped and failed, and together they account for every recipient. */
    method Run(listAt: Time, turns: seq<Turn>) returns (sent: nat, skipped: nat, failed: nat)
      requires |turns| == |users| && forall i | 0 <= i < |turns| :: turns[i].listAt == listAt
      modifies this
      ensures |users| == |old(users)| && forall i | 0 <= i < |users| :: users[i] == After(old(users)[i], turns[i])
      ensures sent == |With(Sent, old(users), turns)| && skipped == |With(SkippedEmpty, old(users), turns)|
      ensures failed == |With(Failed, old(users), turns)|
      ensures sent + skipped + failed == |Recipients(old(users), listAt)|
    {
      var recipients := Recipients(users, listAt);
      RecipientsAreEligible(users, listAt);
      sent, skipped, failed := 0, 0, 0;
      for k := 0 to |recipients|
        invariant users == AfterTurns(old(users), turns, recipients, k)
        invariant Counters(sent, skipped, failed) == Totals(old(users), turns, recipients, k)
      {
        var i := recipients[k];
        assert i in recipients;
        NotYet(old(users), turns, recipients, k);
        var t := turns[i];
        if !t.countOk {
          failed := failed + 1;
          continue;
        }
        var news := CountNew(t.created, Since(users[i], t), t.countAt);
        if news + t.standing > 0 {
          if !t.sendOk {
            failed := failed + 1;
            continue;
          }
          sent := sent + 1;
        } else {
          skipped := skipped + 1;
        }
        if t.markAt.Some? {
          users := users[i := users[i].(last := t.markAt)];
        }
      }
      PassTotals(old(users), turns, listAt);
      forall i | 0 <= i < |users|
        ensures users[i] == After(old(users)[i], turns[i])
      {
        EveryTurnTaken(old(users), turns, listAt, i);
      }
    }
  }

  // ---------- One user's windows over a run of passes ----------

  function UserAt(u: User, ts: seq<Turn>, k: nat): User
    requires k <= |ts|
  {
    if k == 0 then u else After(UserAt(u, ts, k - 1), ts[k - 1])
  }

  predicate CompletedAt(u: User, ts: seq<Turn>, k: nat)
    requires k < |ts|
  {
    Completed(UserAt(u, ts, k), ts[k])
  }

  /** Instant `x` is in the window that pass k counted. */
  predicate InWindow(u: User, ts: seq<Turn>, k: nat, x: Time)
    requires k < |ts|
  {
    CompletedAt(u, ts, k) && Since(UserAt(u, ts, k), ts[k]) < x <= ts[k].countAt
  }

  /** Instant `x` fell between the counts of a completed pass and its mark. */
  predicate BetweenCountAndMark(u: User, ts: seq<Turn>, k: nat, x: Time)
    requires k < |ts|
  {
    CompletedAt(u, ts, k) && ts[k].markAt.Some? && ts[k].countAt < x <= ts[k].markAt.value
  }

  /** Passes list, count and mark in this order, one pass after the other. */
  ghost predicate Chronological(ts: seq<Turn>) {
    && (forall i | 0 <= i < |ts| ::
          ts[i].listAt <= ts[i].countAt && (ts[i].markAt.Some? ==> ts[i].countAt <= ts[i].markAt.value))
    && (forall i, j | 0 <= i < j < |ts| ::
          ts[i].countAt <= ts[j].listAt && (ts[i].markAt.Some? ==> ts[i].markAt.value <= ts[j].listAt))
  }

  ghost predicate MarksSucceed(u: User, ts: seq<Turn>) {
    forall k {:trigger CompletedAt(u, ts, k)} | 0 <= k < |ts| && CompletedAt(u, ts, k) :: ts[k].markAt.Some?
  }

  /** A mark that succeeds is never undone, whatever fails later. */
  lemma {:induction false} MarkLasts(u: User, ts: seq<Turn>, m: nat, j: nat)
    requires m < j <= |ts| && Chronological(ts) && CompletedAt(u, ts, m) && ts[m].markAt.Some?
    ensures var l := UserAt(u, ts, j).last; l.Some? && l.value >= ts[m].markAt.value
    decreases j
  {
    if m + 1 < j {
      MarkLasts(u, ts, m, j - 1);
    }
  }

  /** Once a completed digest has managed to mark its user, no later one counts an instant of its
      window again, whatever the delays between counting and marking; and the two are over 23
      hours apart. */
  lemma {:induction false} WindowsAreDisjoint(u: User, ts: seq<Turn>, i: nat, j: nat, x: Time)
    requires i < j < |ts| && Chronological(ts) && (CompletedAt(u, ts, i) ==> ts[i].markAt.Some?)
    ensures !(InWindow(u, ts, i, x) && InWindow(u, ts, j, x))
    ensures CompletedAt(u, ts, i) && CompletedAt(u, ts, j) ==> ts[j].listAt - ts[i].markAt.value > MIN_GAP
  {
    if CompletedAt(u, ts, i) {
      MarkLasts(u, ts, i, j);
    }
  }

  lemma {:induction false} InOneWindow(u: User, ts: seq<Turn>, i: nat, j: nat, x: Time)
    requires i < |ts| && j < |ts| && i != j && Chronological(ts) && MarksSucceed(u, ts) && InWindow(u, ts, i, x)
    ensures !InWindow(u, ts, j, x)
  {
    if CompletedAt(u, ts, j) {
      assert ts[i].markAt.Some? && ts[j].markAt.Some?;
      if i < j {
        WindowsAreDisjoint(u, ts, i, j, x);
      } else {
        WindowsAreDisjoint(u, ts, j, i, x);
      }
    }
  }

  /** A turn that ends in a mail, or finds nothing to say, marks the user if it can; a turn that
      fails, or is not listed, does not. */
  lemma TurnLeaves(u: User, t: Turn)
    ensures After(u, t) ==
            match Dispose(u, t)
            case Sent => if t.markAt == None then u else User(u.optedIn, t.markAt)
            case SkippedEmpty => if t.markAt == None then u else User(u.optedIn, t.markAt)
            case Failed => u
            case NotListed => u
  {
  }

  /** So a user whose mail was marked gets no other within 23 hours of the mark. */
  lemma OneMailIn23Hours(u: User, ts: seq<Turn>, i: nat, j: nat)
    requires i < j < |ts| && Chronological(ts)
    requires Dispose(UserAt(u, ts, i), ts[i]) == Sent && ts[i].markAt.Some?
    ensures Dispose(UserAt(u, ts, j), ts[j]) == Sent ==> ts[j].listAt > ts[i].markAt.value + 82800
  {
    WindowsAreDisjoint(u, ts, i, j, 0);
  }

  /** Some of the first n passes counted `x`; some of them marked past it uncounted. */
  ghost predicate Counted(u: User, ts: seq<Turn>, n: nat, x: Time)
    requires n <= |ts|
  {
    exists k | 0 <= k < n :: InWindow(u, ts, k, x)
  }

  ghost predicate Missed(u: User, ts: seq<Turn>, n: nat, x: Time)
    requires n <= |ts|
  {
    exists k | 0 <= k < n :: BetweenCountAndMark(u, ts, k, x)
  }

  lemma OneMorePass(u: User, ts: seq<Turn>, n: nat, x: Time)
    requires 0 < n <= |ts|
    ensures Counted(u, ts, n, x) <==> Counted(u, ts, n - 1, x) || InWindow(u, ts, n - 1, x)
    ensures Missed(u, ts, n, x) <==> Missed(u, ts, n - 1, x) || BetweenCountAndMark(u, ts, n - 1, x)
  {
  }

  /** The first of the first n passes to complete. */
  function FirstCompleted(u: User, ts: seq<Turn>, n: nat): (r: Option<nat>)
    requires n <= |ts|
    ensures r.Some? ==> r.value < n
  {
    if n == 0 then None
    else
      var before := FirstCompleted(u, ts, n - 1);
      if before.None? && CompletedAt(u, ts, n - 1) then Some(n - 1) else before
  }

  lemma {:induction false} FirstCompletedIsFirst(u: User, ts: seq<Turn>, n: nat)
    requires n <= |ts|
    ensures var r := FirstCompleted(u, ts, n);
            && (r.Some? ==> CompletedAt(u, ts, r.value))
            && forall k | 0 <= k < (if r.Some? then r.value else n) :: !CompletedAt(u, ts, k)
    decreases n
  {
    if n > 0 {
      FirstCompletedIsFirst(u, ts, n - 1);
    }
  }

  /** Where the windows of the first n passes begin: at the last digest before the run, or 24
      hours before the counts of the first pass that completes. */
  function Opening(u: User, ts: seq<Turn>, n: nat): Option<Time>
    requires n <= |ts|
  {
    if u.last.Some? then u.last
    else
      match FirstCompleted(u, ts, n)
      case None => None
      case Some(f) => Some(ts[f].countAt - FIRST_WINDOW)
  }

  /** The last digest, if there was one, is before the passes from n on. */
  ghost predicate PastOf(u: User, ts: seq<Turn>, n: nat)
    requires n <= |ts|
  {
    u.last.Some? ==> forall j | n <= j < |ts| :: u.last.value <= ts[j].listAt
  }

  /** What a run that opened its windows at `w` and last marked at `l` has made of `x`. */
  ghost predicate Settled(w: Option<Time>, l: Option<Time>, counted: bool, missed: bool, x: Time) {
    match w
    case None => !counted && !missed
    case Some(w) =>
      && l.Some? && w <= l.value
      && (counted <==> w < x <= l.value && !missed) && (missed ==> w < x <= l.value)
  }

  /** A completed pass adds the window (since, countAt] and misses (countAt, mark]. */
  lemma {:induction false} SettleMore(w: Option<Time>, l: Option<Time>, counted: bool, missed: bool, x: Time,
                                      since: Time, countAt: Time, mark: Time)
    requires Settled(w, l, counted, missed, x) && since <= countAt <= mark && (w.Some? ==> l == Some(since))
    ensures Settled(if w.Some? then w else Some(since), Some(mark),
                    counted || since < x <= countAt, missed || countAt < x <= mark, x)
  {
  }

  lemma {:induction false} OpeningStep(u: User, ts: seq<Turn>, n: nat)
    requires 0 < n <= |ts|
    ensures Opening(u, ts, n) ==
            if Opening(u, ts, n - 1).None? && CompletedAt(u, ts, n - 1) then Some(ts[n - 1].countAt - FIRST_WINDOW)
            else Opening(u, ts, n - 1)
  {
  }

  lemma {:induction false} MarkStands(u: User, ts: seq<Turn>, n: nat)
    requires 0 < n <= |ts| && CompletedAt(u, ts, n - 1) && Chronological(ts) && MarksSucceed(u, ts)
    ensures var t := ts[n - 1]; t.markAt.Some? && UserAt(u, ts, n).last == t.markAt && t.countAt <= t.markAt.value
  {
    assert UserAt(u, ts, n) == After(UserAt(u, ts, n - 1), ts[n - 1]);
  }

  /** Until a pass completes the user is as before; afterwards the last mark is in the past of
      the passes to come. */
  lemma {:induction false} LastIsPast(u: User, ts: seq<Turn>, n: nat)
    requires n <= |ts| && Chronological(ts) && MarksSucceed(u, ts) && PastOf(u, ts, 0)
    ensures Opening(u, ts, n).None? ==> UserAt(u, ts, n) == u
    ensures Opening(u, ts, n).Some? ==> UserAt(u, ts, n).last.Some?
    ensures PastOf(UserAt(u, ts, n), ts, n)
    decreases n
  {
    if n > 0 {
      LastIsPast(u, ts, n - 1);
      OpeningStep(u, ts, n);
      if CompletedAt(u, ts, n - 1) {
        MarkStands(u, ts, n);
        assert forall j | n <= j < |ts| :: ts[n - 1].markAt.value <= ts[j].listAt;
      } else {
        assert UserAt(u, ts, n) == UserAt(u, ts, n - 1);
      }
    }
  }

  /** Where the window of a completed pass begins, and what its mark leaves. */
  lemma {:induction false} CompletedPass(u: User, ts: seq<Turn>, n: nat)
    requires 0 < n <= |ts| && CompletedAt(u, ts, n - 1)
    requires Chronological(ts) && MarksSucceed(u, ts) && PastOf(u, ts, 0)
    ensures var w, since := Opening(u, ts, n - 1), Since(UserAt(u, ts, n - 1), ts[n - 1]);
            && Opening(u, ts, n) == (if w.Some? then w else Some(since))
            && (w.Some? ==> UserAt(u, ts, n - 1).last == Some(since))
            && since <= ts[n - 1].countAt
  {
    var before := UserAt(u, ts, n - 1);
    LastIsPast(u, ts, n - 1);
    OpeningStep(u, ts, n);
    if Opening(u, ts, n - 1).None? {
      assert before.last == None;
    } else {
      assert before.last.Some? && before.last.value <= ts[n - 1].listAt;
    }
  }

  /** For any user: an instant is counted if and only if it is after the opening, not after the
      last mark, and not between the counts and the mark of a completed pass. Before any
      completed pass nothing is counted. */
  lemma {:induction false} CountedIffNotMissed(u: User, ts: seq<Turn>, n: nat, x: Time)
    requires n <= |ts| && Chronological(ts) && MarksSucceed(u, ts) && PastOf(u, ts, 0)
    ensures match Opening(u, ts, n)
            case None => !Counted(u, ts, n, x)
            case Some(w) =>
              var l := UserAt(u, ts, n).last;
              && l.Some? && w <= l.value
              && (Counted(u, ts, n, x) <==> w < x <= l.value && !Missed(u, ts, n, x))
    ensures Settled(Opening(u, ts, n), UserAt(u, ts, n).last, Counted(u, ts, n, x), Missed(u, ts, n, x), x)
    decreases n
  {
    if n > 0 {
      CountedIffNotMissed(u, ts, n - 1, x);
      OneMorePass(u, ts, n, x);
      if CompletedAt(u, ts, n - 1) {
        SettledByPass(u, ts, n, x);
      } else {
        OpeningStep(u, ts, n);
        assert UserAt(u, ts, n) == UserAt(u, ts, n - 1);
      }
    }
  }

  lemma {:induction false} SettledByPass(u: User, ts: seq<Turn>, n: nat, x: Time)
    requires 0 < n <= |ts| && CompletedAt(u, ts, n - 1)
    requires Chronological(ts) && MarksSucceed(u, ts) && PastOf(u, ts, 0)
    requires Settled(Opening(u, ts, n - 1), UserAt(u, ts, n - 1).last,
                     Counted(u, ts, n - 1, x), Missed(u, ts, n - 1, x), x)
    ensures Settled(Opening(u, ts, n), UserAt(u, ts, n).last, Counted(u, ts, n, x), Missed(u, ts, n, x), x)
  {
    var before, t := UserAt(u, ts, n - 1), ts[n - 1];
    CompletedPass(u, ts, n);
    MarkStands(u, ts, n);
    SettleMore(Opening(u, ts, n - 1), before.last, Counted(u, ts, n - 1, x), Missed(u, ts, n - 1, x), x,
               Since(before, t), t.countAt, t.markAt.value);
    OneMorePass(u, ts, n, x);
  }

  // ---------- Failed marks ----------

  /** Some completed pass from i to before j managed to mark the user. */
  ghost predicate MarkedBetween(u: User, ts: seq<Turn>, i: nat, j: nat)
    requires i <= j <= |ts|
  {
    exists m | i <= m < j :: CompletedAt(u, ts, m) && ts[m].markAt.Some?
  }

  /** Until a mark succeeds the user stays as it was. */
  lemma {:induction false} UnmarkedStays(u: User, ts: seq<Turn>, i: nat, j: nat)
    requires i <= j <= |ts| && !MarkedBetween(u, ts, i, j)
    ensures UserAt(u, ts, j) == UserAt(u, ts, i)
    decreases j
  {
    if i < j {
      UnmarkedStays(u, ts, i, j - 1);
      assert !(CompletedAt(u, ts, j - 1) && ts[j - 1].markAt.Some?);
    }
  }

  /** With marks that may fail: an instant that one pass counted is counted again by a later
      completed pass if and only if no mark succeeded in between, and, for a user without a
      digest, the sliding window still reaches it. */
  lemma {:induction false} CountedAgainIff(u: User, ts: seq<Turn>, i: nat, j: nat, x: Time)
    requires i < j < |ts| && Chronological(ts) && InWindow(u, ts, i, x) && CompletedAt(u, ts, j)
    ensures InWindow(u, ts, j, x) <==>
            && !MarkedBetween(u, ts, i, j)
            && (UserAt(u, ts, i).last.Some? || x > ts[j].countAt - FIRST_WINDOW)
  {
    assert x <= ts[i].countAt <= ts[j].listAt <= ts[j].countAt;
    if m :| i <= m < j && CompletedAt(u, ts, m) && ts[m].markAt.Some? {
      MarkLasts(u, ts, m, j);
      assert i < m ==> ts[i].countAt <= ts[m].listAt;
      assert ts[i].countAt <= ts[m].markAt.value;
    } else {
      UnmarkedStays(u, ts, i, j);
    }
  }

  // ---------- Failed passes ----------

  /** A count or send that fails leaves the user as it was; the next turn sees the same lower
      end if and only if the user has had a digest before, because the window of a first
      digest slides with its counts. */
  lemma FailureKeepsWindow(u: User, t: Turn, next: Turn)
    requires Dispose(u, t) == Failed
    ensures After(u, t) == u
    ensures Since(After(u, t), next) == Since(u, t) <==> u.last.Some? || next.countAt == t.countAt
  {
  }

  /** So, of the instants in the window of a failed first digest, exactly those less than 24
      hours before the counts of the first completed pass are ever counted. */
  lemma FailedFirstDigest(u: User, ts: seq<Turn>, k: nat, f: nat, x: Time)
    requires Chronological(ts) && MarksSucceed(u, ts) && u.last.None?
    requires k < f < |ts| && FirstCompleted(u, ts, |ts|) == Some(f)
    requires Dispose(UserAt(u, ts, k), ts[k]) == Failed
    requires Since(UserAt(u, ts, k), ts[k]) < x <= ts[k].countAt
    ensures Counted(u, ts, |ts|, x) <==> x > ts[f].countAt - FIRST_WINDOW
  {
    CountedIffNotMissed(u, ts, |ts|, x);
    FirstCompletedIsFirst(u, ts, |ts|);
    MarkLasts(u, ts, f, |ts|);
    forall m | 0 <= m < |ts|
      ensures !BetweenCountAndMark(u, ts, m, x)
    {
      assert m < f ==> !CompletedAt(u, ts, m);
      assert k < m ==> ts[k].countAt <= ts[m].listAt;
    }
  }

  /** A first digest that fails on the day of an event, and a retry a day later: the event was
      in the failed window, and no digest ever counts it. */
  lemma FailedFirstDigestLosesAnEvent()
    ensures var u, events := User(true, None), [-HOUR];
            var ts := [Turn(0, 0, false, events, 0, true, None), Turn(DAY, DAY, true, events, 0, true, Some(DAY))];
            && Chronological(ts) && MarksSucceed(u, ts)
            && Dispose(u, ts[0]) == Failed && Since(u, ts[0]) < events[0] <= ts[0].countAt
            && CompletedAt(u, ts, 1) && CountNew(events, Since(UserAt(u, ts, 1), ts[1]), DAY) == 0
            && !Counted(u, ts, 2, events[0])
  {
    var u, events := User(true, None), [-HOUR];
    var t0, t1 := Turn(0, 0, false, events, 0, true, None), Turn(DAY, DAY, true, events, 0, true, Some(DAY));
    var ts := [t0, t1];
    assert UserAt(u, ts, 0) == u && UserAt(u, ts, 1) == u;
    assert events[..0] == [];
    assert CountNew(events, 0, DAY) == 0;
    assert CompletedAt(u, ts, 1) && !CompletedAt(u, ts, 0);
  }

  // ---------- Events over a whole run ----------

  /** The new items all completed digests among the first n passes announced. */
  function Announced(u: User, ts: seq<Turn>, n: nat): nat
    requires n <= |ts|
  {
    if n == 0 then 0
    else
      var t := ts[n - 1];
      Announced(u, ts, n - 1) +
      if CompletedAt(u, ts, n - 1) then CountNew(t.created, Since(UserAt(u, ts, n - 1), t), t.countAt) else 0
  }

  ghost function CountedEvents(u: User, ts: seq<Turn>, n: nat, events: seq<Time>): set<nat>
    requires n <= |ts|
  {
    set e: nat | e < |events| && Counted(u, ts, n, events[e])
  }

  /** Over a run that sees one list of events, every event is announced at most once, and the
      numbers of all digests add up to the events counted. */
  lemma {:induction false} EachEventOnce(u: User, ts: seq<Turn>, n: nat, events: seq<Time>)
    requires n <= |ts| && Chronological(ts) && MarksSucceed(u, ts)
    requires forall k | 0 <= k < |ts| :: ts[k].created == events
    ensures Announced(u, ts, n) == |CountedEvents(u, ts, n, events)|
    decreases n
  {
    if n == 0 {
      assert CountedEvents(u, ts, n, events) == {};
    } else {
      EachEventOnce(u, ts, n - 1, events);
      OneMorePassCounts(u, ts, n, events);
      assert ts[n - 1].created == events;
    }
  }

  lemma {:induction false} OneMorePassCounts(u: User, ts: seq<Turn>, n: nat, events: seq<Time>)
    requires 0 < n <= |ts| && Chronological(ts) && MarksSucceed(u, ts)
    ensures |CountedEvents(u, ts, n, events)| ==
            |CountedEvents(u, ts, n - 1, events)| +
            if CompletedAt(u, ts, n - 1)
            then CountNew(events, Since(UserAt(u, ts, n - 1), ts[n - 1]), ts[n - 1].countAt) else 0
  {
    var since, t := Since(UserAt(u, ts, n - 1), ts[n - 1]), ts[n - 1];
    var before := CountedEvents(u, ts, n - 1, events);
    var added := if CompletedAt(u, ts, n - 1) then Newer(events, since, t.countAt) else {};
    forall e: nat | e < |events|
      ensures e in CountedEvents(u, ts, n, events) <==> e in before || e in added
      ensures !(e in before && e in added)
    {
      CountedEarlierOrNow(u, ts, n, events[e]);
    }
    assert CountedEvents(u, ts, n, events) == before + added;
    assert before !! added;
    CountNewIsWindowSize(events, since, t.countAt);
  }

  lemma {:induction false} CountedEarlierOrNow(u: User, ts: seq<Turn>, n: nat, x: Time)
    requires 0 < n <= |ts| && Chronological(ts) && MarksSucceed(u, ts)
    ensures Counted(u, ts, n, x) <==> Counted(u, ts, n - 1, x) || InWindow(u, ts, n - 1, x)
    ensures !(Counted(u, ts, n - 1, x) && InWindow(u, ts, n - 1, x))
  {
    OneMorePass(u, ts, n, x);
    if k :| 0 <= k < n - 1 && InWindow(u, ts, k, x) {
      InOneWindow(u, ts, k, n - 1, x);
    }
  }

  /** ... so the digests together announce exactly the events after the opening that no pass
      missed. */
  lemma {:induction false} AnnouncedExactly(u: User, ts: seq<Turn>, events: seq<Time>)
    requires Chronological(ts) && MarksSucceed(u, ts) && PastOf(u, ts, 0)
    requires forall k | 0 <= k < |ts| :: ts[k].created == events
    requires Opening(u, ts, |ts|).Some?
    ensures UserAt(u, ts, |ts|).last.Some?
    ensures var w, l := Opening(u, ts, |ts|).value, UserAt(u, ts, |ts|).last.value;
            Announced(u, ts, |ts|) ==
            |set e: nat | e < |events| && w < events[e] <= l && !Missed(u, ts, |ts|, events[e])|
  {
    EachEventOnce(u, ts, |ts|, events);
    CountedIffNotMissed(u, ts, |ts|, 0);
    var w, l := Opening(u, ts, |ts|).value, UserAt(u, ts, |ts|).last.value;
    forall e: nat | e < |events|
      ensures Counted(u, ts, |ts|, events[e]) <==> w < events[e] <= l && !Missed(u, ts, |ts|, events[e])
    {
      CountedIffNotMissed(u, ts, |ts|, events[e]);
    }
    assert CountedEvents(u, ts, |ts|, events) ==
           set e: nat | e < |events| && w < events[e] <= l && !Missed(u, ts, |ts|, events[e]);
  }

  /** When counting and marking share one instant, the windows partition time after the
      opening: every instant up to the last mark is in exactly one of them. */
  lemma {:induction false} WindowsPartitionTime(u: User, ts: seq<Turn>, x: Time)
    requires Chronological(ts) && MarksSucceed(u, ts) && PastOf(u, ts, 0)
    requires forall k | 0 <= k < |ts| && CompletedAt(u, ts, k) :: ts[k].markAt == Some(ts[k].countAt)
    requires var w, l := Opening(u, ts, |ts|), UserAt(u, ts, |ts|).last;
             w.Some? && l.Some? && w.value < x <= l.value
    ensures exists k | 0 <= k < |ts| ::
              InWindow(u, ts, k, x) && forall j | 0 <= j < |ts| && j != k :: !InWindow(u, ts, j, x)
  {
    CountedIffNotMissed(u, ts, |ts|, x);
    var k :| 0 <= k < |ts| && InWindow(u, ts, k, x);
    forall j | 0 <= j < |ts| && j != k
      ensures !InWindow(u, ts, j, x)
    {
      InOneWindow(u, ts, k, j, x);
    }
  }
}
