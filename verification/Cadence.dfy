/** The cadence of FSO reminders for one dated record.

    Clearance records and DD254 forms use the same CASE over a due date and one
    shared "last reminded" timestamp. This module follows one record through an
    arbitrary run of passes. */
module Cadence {
  import opened Wrappers
  import opened Clock

  datatype Bucket = NoBucket | D90 | D30 | Overdue

  /** The CASE of both List queries, evaluated at `now`. */
  function BucketOf(due: Day, last: Option<Time>, now: Time): Bucket {
    var today := DayOf(now);
    if due < today && (last.None? || DayOf(last.value) < today) then
      Overdue
    else if due <= today + 30 && due >= today && (last.None? || last.value < now - 20 * DAY) then
      D30
    else if due <= today + 90 && due > today + 30 && (last.None? || last.value < now - 60 * DAY) then
      D90
    else
      NoBucket
  }

  /** How one pass sees one record: when it lists, whether the record is eligible
      (current, dated, and reaching an FSO), and the mark that stays on the record
      if it is listed (None if every mark failed). */
  datatype Visit = Visit(at: Time, eligible: bool, mark: Option<Time>)

  function Fired(due: Day, last: Option<Time>, v: Visit): Bucket {
    if v.eligible then BucketOf(due, last, v.at) else NoBucket
  }

  function LastAfter(due: Day, last: Option<Time>, v: Visit): Option<Time> {
    if Fired(due, last, v) == NoBucket || v.mark.None? then last else v.mark
  }

  /** What each pass of a run sends for the record. */
  function History(due: Day, last: Option<Time>, vs: seq<Visit>): (h: seq<Bucket>)
    ensures |h| == |vs|
    decreases |vs|
  {
    if vs == [] then []
    else [Fired(due, last, vs[0])] + History(due, LastAfter(due, last, vs[0]), vs[1..])
  }

  /** Passes follow each other, and a mark is written after its listing and before
      the next pass lists. */
  ghost predicate Chronological(vs: seq<Visit>) {
    && (forall i | 0 <= i < |vs| && vs[i].mark.Some? :: vs[i].at <= vs[i].mark.value)
    && (forall i, j | 0 <= i < j < |vs| :: vs[i].at <= vs[j].at)
    && (forall i, j | 0 <= i < j < |vs| && vs[i].mark.Some? :: vs[i].mark.value <= vs[j].at)
  }

  /** Every pass that reminds about the record also manages to mark it. */
  ghost predicate Marked(due: Day, last: Option<Time>, vs: seq<Visit>) {
    forall i | 0 <= i < |vs| :: History(due, last, vs)[i] != NoBucket ==> vs[i].mark.Some?
  }

  // ---------- At most one, at most two, at most one a day ----------

  /** How many d90 reminders the gate still allows. */
  function Budget90(due: Day, last: Option<Time>): nat {
    if last.None? || last.value < (due - 90) * DAY then 1 else 0
  }

  /** How many d30 reminders the gate still allows: the window is 31 days long and
      the gate 20, so two fit and three do not. */
  function Budget30(due: Day, last: Option<Time>): nat {
    if last.None? || last.value < (due - 30) * DAY then 2
    else if last.value < (due - 19) * DAY then 1
    else 0
  }

  lemma ChronologicalTail(vs: seq<Visit>)
    requires vs != [] && Chronological(vs)
    ensures Chronological(vs[1..])
  {
    var tail := vs[1..];
    assert forall i | 0 <= i < |tail| :: tail[i] == vs[i + 1];
  }

  lemma {:induction false} PassSpendsBudget(due: Day, last: Option<Time>, v: Visit)
    requires v.mark.Some? ==> v.mark.value >= v.at
    ensures var next, fired := LastAfter(due, last, v), Fired(due, last, v);
            if v.mark.None? then next == last
            else && Budget90(due, next) + (if fired == D90 then 1 else 0) <= Budget90(due, last)
                 && Budget30(due, next) + (if fired == D30 then 1 else 0) <= Budget30(due, last)
  {
  }

  /** How many reminders of bucket `b` could not be marked. */
  function Unmarked(h: seq<Bucket>, vs: seq<Visit>, b: Bucket): nat
    requires |h| == |vs|
  {
    UnmarkedIn(h, vs, b, |h|)
  }

  function UnmarkedIn(h: seq<Bucket>, vs: seq<Visit>, b: Bucket, n: nat): nat
    requires n <= |h| == |vs|
  {
    if n == 0 then 0
    else UnmarkedIn(h, vs, b, n - 1) + if h[n - 1] == b && vs[n - 1].mark.None? then 1 else 0
  }

  function UnmarkedAt(h: seq<Bucket>, vs: seq<Visit>, b: Bucket, n: nat): set<nat>
    requires n <= |h| == |vs|
  {
    set i: nat | i < n && h[i] == b && vs[i].mark.None?
  }

  /** It counts positions of the run. */
  lemma {:induction false} UnmarkedIsSize(h: seq<Bucket>, vs: seq<Visit>, b: Bucket, n: nat)
    requires n <= |h| == |vs|
    ensures UnmarkedIn(h, vs, b, n) == |UnmarkedAt(h, vs, b, n)|
  {
    if n == 0 {
      assert UnmarkedAt(h, vs, b, n) == {};
    } else {
      UnmarkedIsSize(h, vs, b, n - 1);
      var before := UnmarkedAt(h, vs, b, n - 1);
      if h[n - 1] == b && vs[n - 1].mark.None? {
        assert UnmarkedAt(h, vs, b, n) == before + {n - 1};
      } else {
        assert UnmarkedAt(h, vs, b, n) == before;
      }
    }
  }

  lemma {:induction false} UnmarkedFirst(x: Bucket, v: Visit, h: seq<Bucket>, vs: seq<Visit>, b: Bucket, n: nat)
    requires n <= |h| == |vs|
    ensures UnmarkedIn([x] + h, [v] + vs, b, n + 1) ==
            UnmarkedIn(h, vs, b, n) + if x == b && v.mark.None? then 1 else 0
  {
    if n > 0 {
      UnmarkedFirst(x, v, h, vs, b, n - 1);
    } else {
      assert UnmarkedIn([x] + h, [v] + vs, b, 0) == 0;
    }
  }

  lemma {:induction false} NoneUnmarked(h: seq<Bucket>, vs: seq<Visit>, b: Bucket, n: nat)
    requires n <= |h| == |vs| && forall i | 0 <= i < |h| && h[i] == b :: vs[i].mark.Some?
    ensures UnmarkedIn(h, vs, b, n) == 0
  {
    if n > 0 {
      NoneUnmarked(h, vs, b, n - 1);
    }
  }

  lemma {:induction false} CountFirst(x: Bucket, s: seq<Bucket>, b: Bucket)
    ensures multiset([x] + s)[b] == multiset(s)[b] + if x == b then 1 else 0
  {
    assert multiset([x] + s) == multiset{x} + multiset(s);
  }

  lemma {:induction false} HistoryFirst(due: Day, last: Option<Time>, vs: seq<Visit>, b: Bucket)
    requires vs != []
    ensures var h, rest := History(due, last, vs), History(due, LastAfter(due, last, vs[0]), vs[1..]);
            var hit := if Fired(due, last, vs[0]) == b then 1 else 0;
            && multiset(h)[b] == multiset(rest)[b] + hit
            && Unmarked(h, vs, b) == Unmarked(rest, vs[1..], b) + if vs[0].mark.None? then hit else 0
  {
    var fired, rest := Fired(due, last, vs[0]), History(due, LastAfter(due, last, vs[0]), vs[1..]);
    CountFirst(fired, rest, b);
    UnmarkedFirst(fired, vs[0], rest, vs[1..], b, |rest|);
    assert vs == [vs[0]] + vs[1..];
  }

  lemma {:induction false} WithinBudget(due: Day, last: Option<Time>, vs: seq<Visit>)
    requires Chronological(vs)
    ensures var h := History(due, last, vs);
            && multiset(h)[D90] <= Budget90(due, last) + Unmarked(h, vs, D90)
            && multiset(h)[D30] <= Budget30(due, last) + Unmarked(h, vs, D30)
    decreases |vs|
  {
    if vs != [] {
      ChronologicalTail(vs);
      PassSpendsBudget(due, last, vs[0]);
      WithinBudget(due, LastAfter(due, last, vs[0]), vs[1..]);
      HistoryFirst(due, last, vs, D90);
      HistoryFirst(due, last, vs, D30);
    }
  }

  /** Whatever the record's past, a run reminds about it at most once in the d90 bucket and at
      most twice in the d30 bucket, and once more for each such reminder whose mark fails. */
  lemma RemindersAreBounded(due: Day, last: Option<Time>, vs: seq<Visit>)
    requires Chronological(vs)
    ensures var h := History(due, last, vs);
            multiset(h)[D90] <= 1 + Unmarked(h, vs, D90) && multiset(h)[D30] <= 2 + Unmarked(h, vs, D30)
  {
    WithinBudget(due, last, vs);
  }

  lemma AtMostThreeBeforeDue(due: Day, last: Option<Time>, vs: seq<Visit>)
    requires Chronological(vs) && Marked(due, last, vs)
    ensures var sent := multiset(History(due, last, vs)); sent[D90] <= 1 && sent[D30] <= 2
  {
    RemindersAreBounded(due, last, vs);
    NoneUnmarked(History(due, last, vs), vs, D90, |vs|);
    NoneUnmarked(History(due, last, vs), vs, D30, |vs|);
  }

  /** The bound of three is reached for every due date: d90 on the first day of its
      window and d30 twice, 21 days apart. */
  lemma ThreeBeforeDueHappen(due: Day)
    ensures var at := (d: Day) => Visit((due - d) * DAY, true, Some((due - d) * DAY));
            var vs := [at(90), at(30), at(9)];
            Chronological(vs) && Marked(due, None, vs) && History(due, None, vs) == [D90, D30, D30]
  {
    var at := (d: Day) => Visit((due - d) * DAY, true, Some((due - d) * DAY));
    var v0, v1, v2 := at(90), at(30), at(9);
    var vs := [v0, v1, v2];
    assert vs[1..] == [v1, v2] && vs[1..][1..] == [v2] && vs[1..][1..][1..] == [];
    assert DayOf(v0.at) == due - 90 && DayOf(v1.at) == due - 30 && DayOf(v2.at) == due - 9;
    assert History(due, v1.mark, [v2]) == [D30] by {
      assert [v2][1..] == [];
    }
    assert History(due, v0.mark, [v1, v2]) == [D30, D30] by {
      assert [v1, v2][1..] == [v2];
    }
    assert History(due, None, vs) == [D90, D30, D30];
  }

  /** The timestamp the gates look at when pass `i` of the run lists. */
  function LastAt(due: Day, last: Option<Time>, vs: seq<Visit>, i: nat): Option<Time>
    requires i <= |vs|
    decreases |vs|
  {
    if i == 0 then last else LastAt(due, LastAfter(due, last, vs[0]), vs[1..], i - 1)
  }

  lemma {:induction false} HistoryAt(due: Day, last: Option<Time>, vs: seq<Visit>, i: nat)
    requires i < |vs|
    ensures History(due, last, vs)[i] == Fired(due, LastAt(due, last, vs, i), vs[i])
    ensures LastAt(due, last, vs, i + 1) == LastAfter(due, LastAt(due, last, vs, i), vs[i])
    decreases |vs|
  {
    if i > 0 {
      HistoryAt(due, LastAfter(due, last, vs[0]), vs[1..], i - 1);
    }
  }

  /** Buckets never go backwards, and a marked overdue reminder is the last of its day. */
  lemma BucketsAdvance(due: Day, last: Option<Time>, vs: seq<Visit>, i: nat, j: nat)
    requires i < j < |vs| && Chronological(vs)
    ensures var h := History(due, last, vs);
            && (h[i] == D30 ==> h[j] != D90)
            && (h[i] == Overdue ==> h[j] != D90 && h[j] != D30)
            && (h[i] == h[j] == Overdue && vs[i].mark.Some? ==> DayOf(vs[i].at) < DayOf(vs[j].at))
  {
    HistoryAt(due, last, vs, i);
    HistoryAt(due, last, vs, j);
    InTime(vs, i, j);
    if vs[i].mark.Some? && History(due, last, vs)[i] != NoBucket { MarkIsSeen(due, last, vs, i, j); }
  }

  // ---------- Reminders do arrive, unless a late mark gets in the way ----------

  /** A reminder is only sent past its gate and marked after its listing, so the timestamp
      never moves back. */
  lemma {:induction false} LastNeverMovesBack(due: Day, last: Option<Time>, vs: seq<Visit>, i: nat, j: nat)
    requires i <= j <= |vs| && Chronological(vs) && LastAt(due, last, vs, i).Some?
    ensures var l := LastAt(due, last, vs, j); l.Some? && l.value >= LastAt(due, last, vs, i).value
  {
    if i < j {
      LastNeverMovesBack(due, last, vs, i, j - 1);
      HistoryAt(due, last, vs, j - 1);
    }
  }

  /** The timestamp of pass `k` is the initial one, or pass `i` left it. */
  lemma WhoMarked(due: Day, last: Option<Time>, vs: seq<Visit>, k: nat) returns (i: Option<nat>)
    requires k < |vs|
    ensures match i
            case None => LastAt(due, last, vs, k) == last
            case Some(i) =>
              i < k && History(due, last, vs)[i] != NoBucket && vs[i].mark.Some? &&
              vs[i].mark == LastAt(due, last, vs, k)
  {
    var j: nat := k;
    while j > 0 && LastAt(due, last, vs, j - 1) == LastAt(due, last, vs, j)
      invariant j <= k && LastAt(due, last, vs, j) == LastAt(due, last, vs, k)
    {
      j := j - 1;
    }
    if j == 0 {
      return None;
    }
    HistoryAt(due, last, vs, j - 1);
    return Some(j - 1);
  }

  /** A mark of pass `i` is still seen, at least, by every later pass. */
  lemma MarkIsSeen(due: Day, last: Option<Time>, vs: seq<Visit>, i: nat, j: nat)
    requires i < j <= |vs| && Chronological(vs) && History(due, last, vs)[i] != NoBucket && vs[i].mark.Some?
    ensures var l := LastAt(due, last, vs, j); l.Some? && l.value >= vs[i].mark.value
  {
    HistoryAt(due, last, vs, i);
    LastNeverMovesBack(due, last, vs, i + 1, j);
  }

  /** Pass `i` sent d90 and its mark still closes the 20-day gate at pass `k`. */
  ghost predicate D90Blocks(due: Day, last: Option<Time>, vs: seq<Visit>, i: nat, k: nat)
    requires i < |vs| && k < |vs|
  {
    History(due, last, vs)[i] == D90 && vs[i].mark.Some? && vs[i].mark.value >= vs[k].at - 20 * DAY
  }

  /** By an eligible pass of the d30 window, d30 has been sent if and only if the record came
      to the run unmarked for 20 days before that pass, and no d90 was marked within those
      20 days; no assumption on when marks commit, or whether they succeed. */
  lemma D30SentIff(due: Day, last: Option<Time>, vs: seq<Visit>, k: nat)
    requires k < |vs| && Chronological(vs)
    requires due - 30 <= DayOf(vs[k].at) <= due && vs[k].eligible
    ensures (exists j | 0 <= j <= k :: History(due, last, vs)[j] == D30) <==>
            && (last.None? || last.value < vs[k].at - 20 * DAY)
            && !exists i | 0 <= i < k :: D90Blocks(due, last, vs, i, k)
  {
    var h := History(due, last, vs);
    if j :| 0 <= j <= k && h[j] == D30 {
      SentBehindGate(due, last, vs, j, k);
      forall i | 0 <= i < k
        ensures !D90Blocks(due, last, vs, i, k)
      {
        if D90Blocks(due, last, vs, i, k) { BlockedBefore(due, last, vs, i, j, k); }
      }
    }
    if (last.None? || last.value < vs[k].at - 20 * DAY) && forall i | 0 <= i < k :: !D90Blocks(due, last, vs, i, k) {
      var i := WhoMarked(due, last, vs, k);
      HistoryAt(due, last, vs, k);
      if i.Some? && h[k] != D30 {
        HistoryAt(due, last, vs, i.value);
        assert vs[i.value].at <= vs[k].at && h[i.value] != Overdue;
        assert !D90Blocks(due, last, vs, i.value, k);
        assert h[i.value] == D30;
      }
    }
  }

  /** What a reminder of pass `j` says, at a later pass, of the timestamp the run began with. */
  lemma {:induction false} SentBehindGate(due: Day, last: Option<Time>, vs: seq<Visit>, j: nat, k: nat)
    requires j <= k < |vs| && Chronological(vs)
    ensures History(due, last, vs)[j] == D30 ==> last.None? || last.value < vs[k].at - 20 * DAY
    ensures History(due, last, vs)[j] == D90 ==> last.None? || last.value < vs[k].at - 60 * DAY
  {
    HistoryAt(due, last, vs, j);
    InTime(vs, j, k);
    if last.Some? { LastNeverMovesBack(due, last, vs, 0, j); }
  }

  /** By an eligible pass of the d90 window, d90 has been sent if and only if the record came to
      the run unmarked for 60 days before that pass. */
  lemma D90SentIff(due: Day, last: Option<Time>, vs: seq<Visit>, k: nat)
    requires k < |vs| && Chronological(vs)
    requires due - 90 <= DayOf(vs[k].at) < due - 30 && vs[k].eligible
    ensures (exists j | 0 <= j <= k :: History(due, last, vs)[j] == D90) <==>
            last.None? || last.value < vs[k].at - 60 * DAY
  {
    var h := History(due, last, vs);
    if j :| 0 <= j <= k && h[j] == D90 {
      SentBehindGate(due, last, vs, j, k);
    }
    if last.None? || last.value < vs[k].at - 60 * DAY {
      HistoryAt(due, last, vs, k);
      var i := WhoMarked(due, last, vs, k);
      if i.Some? && h[k] != D90 {
        HistoryAt(due, last, vs, i.value);
        InTime(vs, i.value, k);
        assert h[i.value] == D90;
      }
    }
  }

  /** A reminder is sent to an eligible record only, inside the window of its bucket, and behind
      the gate on the timestamp as it stands. */
  lemma RemindersKeepTheirWindows(due: Day, last: Option<Time>, vs: seq<Visit>, k: nat)
    requires k < |vs| && History(due, last, vs)[k] != NoBucket
    ensures vs[k].eligible
    ensures var day, l := DayOf(vs[k].at), LastAt(due, last, vs, k);
            match History(due, last, vs)[k]
            case D90 => due - 90 <= day < due - 30 && (l.None? || l.value < vs[k].at - 60 * DAY)
            case D30 => due - 30 <= day <= due && (l.None? || l.value < vs[k].at - 20 * DAY)
            case Overdue => due < day && (l.None? || DayOf(l.value) < day)
            case NoBucket => false
  {
    HistoryAt(due, last, vs, k);
  }

  /** Nothing sends d30 behind a d90 mark that closes the gate for a later pass. */
  lemma BlockedBefore(due: Day, last: Option<Time>, vs: seq<Visit>, i: nat, j: nat, k: nat)
    requires i < k < |vs| && j <= k && Chronological(vs) && D90Blocks(due, last, vs, i, k)
    ensures History(due, last, vs)[j] != D30
  {
    HistoryAt(due, last, vs, i);
    HistoryAt(due, last, vs, j);
    InTime(vs, j, k);
    if j <= i {
      InTime(vs, j, i);
    } else {
      MarkIsSeen(due, last, vs, i, j);
    }
  }

  lemma InTime(vs: seq<Visit>, i: nat, j: nat)
    requires i <= j < |vs| && Chronological(vs)
    ensures vs[i].at <= vs[j].at
  {
  }

  // ---------- Once or twice ----------

  /** Pass `i` sent d30, and by pass `j`, an eligible one no later than the due date, its mark
      (if it made one) is more than 20 days old. */
  ghost predicate D30Reopens(due: Day, h: seq<Bucket>, vs: seq<Visit>, i: nat, j: nat)
    requires i < j < |vs| == |h|
  {
    && h[i] == D30 && vs[j].eligible && DayOf(vs[j].at) <= due
    && (vs[i].mark.Some? ==> vs[i].mark.value < vs[j].at - 20 * DAY)
  }

  ghost predicate D30Twice(h: seq<Bucket>) {
    exists i, j | 0 <= i < j < |h| :: h[i] == D30 && h[j] == D30
  }

  /** d30 goes out more than once if and only if some eligible pass lists by the due date more
      than 20 days after the mark of a d30, or after a d30 that could not be marked. */
  lemma D30TwiceIff(due: Day, last: Option<Time>, vs: seq<Visit>)
    requires Chronological(vs)
    ensures var h := History(due, last, vs);
            D30Twice(h) <==> exists i, j | 0 <= i < j < |vs| :: D30Reopens(due, h, vs, i, j)
  {
    var h := History(due, last, vs);
    if D30Twice(h) {
      var i, j :| 0 <= i < j < |h| && h[i] == D30 && h[j] == D30;
      HistoryAt(due, last, vs, j);
      if vs[i].mark.Some? { MarkIsSeen(due, last, vs, i, j); }
      assert D30Reopens(due, h, vs, i, j);
    }
    if i, j :| 0 <= i < j < |vs| && D30Reopens(due, h, vs, i, j) {
      var m := D30Again(due, last, vs, i, j);
      assert h[i] == D30 && h[m] == D30;
    }
  }

  /** After a d30 that has reopened by pass `j`, pass `j` or one in between sends d30. */
  lemma D30Again(due: Day, last: Option<Time>, vs: seq<Visit>, i: nat, j: nat) returns (m: nat)
    requires i < j < |vs| && Chronological(vs) && D30Reopens(due, History(due, last, vs), vs, i, j)
    ensures i < m <= j && History(due, last, vs)[m] == D30
  {
    HistoryAt(due, last, vs, i);
    HistoryAt(due, last, vs, j);
    InTime(vs, i, j);
    m := j;
    if History(due, last, vs)[j] != D30 {
      var who := WhoMarked(due, last, vs, j);
      if who.None? {
        if last.Some? { LastNeverMovesBack(due, last, vs, 0, i); }
      } else {
        m := who.value;
        HistoryAt(due, last, vs, m);
        InTime(vs, m, j);
        if m < i {
          MarkIsSeen(due, last, vs, m, i);
        } else if m > i {
          InTime(vs, i, m);
        }
      }
    }
  }

  /** `day` is taken: the initial timestamp carries it (or a later one), or a pass listed
      before that day left a mark dated on it. */
  ghost predicate DayTaken(due: Day, last: Option<Time>, vs: seq<Visit>, day: Day) {
    || (last.Some? && DayOf(last.value) >= day)
    || exists i | 0 <= i < |vs| :: MarkedInto(due, last, vs, i, day)
  }

  ghost predicate MarkedInto(due: Day, last: Option<Time>, vs: seq<Visit>, i: nat, day: Day)
    requires i < |vs|
  {
    History(due, last, vs)[i] != NoBucket && vs[i].mark.Some? && DayOf(vs[i].at) < day == DayOf(vs[i].mark.value)
  }

  ghost predicate OverdueSentOn(due: Day, last: Option<Time>, vs: seq<Visit>, day: Day) {
    exists j | 0 <= j < |vs| && DayOf(vs[j].at) == day :: History(due, last, vs)[j] == Overdue
  }

  /** A day after the due date with an eligible pass sees an overdue reminder if and only if
      the day was not taken by an earlier pass's late mark. */
  lemma OverdueSentIff(due: Day, last: Option<Time>, vs: seq<Visit>, k: nat)
    requires k < |vs| && Chronological(vs) && DayOf(vs[k].at) > due && vs[k].eligible
    ensures OverdueSentOn(due, last, vs, DayOf(vs[k].at)) <==> !DayTaken(due, last, vs, DayOf(vs[k].at))
  {
    var day, h := DayOf(vs[k].at), History(due, last, vs);
    if DayTaken(due, last, vs, day) {
      forall j | 0 <= j < |vs| && DayOf(vs[j].at) == day
        ensures h[j] != Overdue
      {
        TakenDayIsSilent(due, last, vs, j);
      }
    } else {
      HistoryAt(due, last, vs, k);
      if h[k] != Overdue {
        var who := WhoMarked(due, last, vs, k);
        var i := who.value;
        HistoryAt(due, last, vs, i);
        assert vs[i].at <= vs[k].at && vs[i].mark.value <= vs[k].at;
        assert !MarkedInto(due, last, vs, i, day);
        assert h[i] == Overdue;
      }
    }
  }

  lemma TakenDayIsSilent(due: Day, last: Option<Time>, vs: seq<Visit>, j: nat)
    requires j < |vs| && Chronological(vs) && DayTaken(due, last, vs, DayOf(vs[j].at))
    ensures History(due, last, vs)[j] != Overdue
  {
    var day := DayOf(vs[j].at);
    HistoryAt(due, last, vs, j);
    if last.Some? && DayOf(last.value) >= day {
      LastNeverMovesBack(due, last, vs, 0, j);
    } else {
      var i :| 0 <= i < |vs| && MarkedInto(due, last, vs, i, day);
      if j <= i {
        InTime(vs, j, i);
      } else {
        MarkIsSeen(due, last, vs, i, j);
      }
    }
  }

  // ---------- With marks on the day of their listing ----------

  /** Every mark lands on the calendar day of its listing. */
  ghost predicate MarksSameDay(vs: seq<Visit>) {
    forall i | 0 <= i < |vs| && vs[i].mark.Some? :: DayOf(vs[i].mark.value) == DayOf(vs[i].at)
  }

  /** If a pass lists on day due-10, then that pass or an earlier one sends d30, even
      when the d90 reminder went out as late as day due-31. */
  lemma D30ByTenDaysBeforeDue(due: Day, last: Option<Time>, vs: seq<Visit>, k: nat)
    requires k < |vs| && Chronological(vs) && MarksSameDay(vs)
    requires last.None? || DayOf(last.value) < due - 30
    requires DayOf(vs[k].at) == due - 10 && vs[k].eligible
    ensures exists j | 0 <= j <= k :: History(due, last, vs)[j] == D30
  {
    forall i | 0 <= i < k
      ensures !D90Blocks(due, last, vs, i, k)
    {
      HistoryAt(due, last, vs, i);
    }
    D30SentIff(due, last, vs, k);
  }

  /** Ten days is the latest possible: with d90 sent in the last second of day due-31,
      passes on every day up to due-11 stay silent. */
  lemma D30CanWaitUntilDueMinus10(due: Day, now: Time)
    requires due - 30 <= DayOf(now) <= due - 11
    ensures BucketOf(due, None, (due - 30) * DAY - 1) == D90
    ensures BucketOf(due, Some((due - 30) * DAY - 1), now) == NoBucket
  {
    assert DayOf((due - 30) * DAY - 1) == due - 31;
  }

  /** Marks that commit after midnight do cost reminders. A d90 listed in the last second of
      day due-31 and marked half a minute later silences the pass on day due-10 ... */
  lemma LateMarkDelaysD30(due: Day)
    ensures var vs := [Visit((due - 30) * DAY - 1, true, Some((due - 30) * DAY + 30)),
                       Visit((due - 10) * DAY + 10, true, Some((due - 10) * DAY + 10))];
            Chronological(vs) && Marked(due, None, vs) && DayOf(vs[1].at) == due - 10 &&
            History(due, None, vs) == [D90, NoBucket]
  {
    var late := Visit((due - 30) * DAY - 1, true, Some((due - 30) * DAY + 30));
    var next := Visit((due - 10) * DAY + 10, true, Some((due - 10) * DAY + 10));
    TwoPasses(due, None, late, next);
    assert DayOf(late.at) == due - 31 && DayOf(next.at) == due - 10;
  }

  /** ... and an overdue reminder marked after midnight silences the whole next day. */
  lemma LateMarkSkipsADay(due: Day, day: Day, next: Visit)
    requires due < day - 1 && DayOf(next.at) == day && next.at >= day * DAY + 30
    requires next.mark.Some? ==> next.mark.value >= next.at
    ensures var vs := [Visit(day * DAY - 1, true, Some(day * DAY + 30)), next];
            Chronological(vs) && Marked(due, None, vs) && History(due, None, vs) == [Overdue, NoBucket]
  {
    var late := Visit(day * DAY - 1, true, Some(day * DAY + 30));
    TwoPasses(due, None, late, next);
    assert DayOf(late.at) == day - 1 && DayOf(late.mark.value) == day;
  }

  lemma TwoPasses(due: Day, last: Option<Time>, v: Visit, w: Visit)
    ensures History(due, last, [v, w]) == [Fired(due, last, v), Fired(due, LastAfter(due, last, v), w)]
  {
    assert [v, w][1..] == [w] && [w][1..] == [];
    assert History(due, LastAfter(due, last, v), [w]) == [Fired(due, LastAfter(due, last, v), w)];
  }

  /** After the due date, on each day with an eligible pass exactly one of that day's
      passes sends an overdue reminder. */
  lemma OverdueOncePerDay(due: Day, last: Option<Time>, vs: seq<Visit>, k: nat)
    requires k < |vs| && Chronological(vs) && MarksSameDay(vs) && Marked(due, last, vs)
    requires last.None? || DayOf(last.value) < DayOf(vs[k].at)
    requires DayOf(vs[k].at) > due && vs[k].eligible
    ensures exists j | 0 <= j < |vs| && DayOf(vs[j].at) == DayOf(vs[k].at) ::
              History(due, last, vs)[j] == Overdue
    ensures forall i, j | 0 <= i < j < |vs| && DayOf(vs[i].at) == DayOf(vs[j].at) ::
              !(History(due, last, vs)[i] == Overdue && History(due, last, vs)[j] == Overdue)
  {
    OverdueSentIff(due, last, vs, k);
    AtMostOneOverdue(due, last, vs);
  }

  lemma AtMostOneOverdue(due: Day, last: Option<Time>, vs: seq<Visit>)
    requires Chronological(vs) && Marked(due, last, vs)
    ensures forall i, j | 0 <= i < j < |vs| && DayOf(vs[i].at) == DayOf(vs[j].at) ::
              !(History(due, last, vs)[i] == Overdue && History(due, last, vs)[j] == Overdue)
  {
    forall i, j | 0 <= i < j < |vs| && DayOf(vs[i].at) == DayOf(vs[j].at)
      ensures !(History(due, last, vs)[i] == Overdue && History(due, last, vs)[j] == Overdue)
    {
      if History(due, last, vs)[i] == Overdue && History(due, last, vs)[j] == Overdue {
        BucketsAdvance(due, last, vs, i, j);
      }
    }
  }
}
