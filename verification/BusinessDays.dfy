/** Business-day arithmetic for travel debriefs (backend/internal/travel/cron.go). */
module BusinessDays {
  import opened Clock

  /** Monday is 0; day 0 of the epoch was a Thursday. */
  function Weekday(d: Day): nat {
    (d + 3) % 7
  }

  predicate IsBusinessDay(d: Day) {
    Weekday(d) < 5
  }

  /** Anchored in the calendar: day 0 is Thursday 1 January 1970, and second 1704067200 begins
      Monday 1 January 2024, whose week has five business days. */
  lemma CalendarAnchor()
    ensures Weekday(0) == 3
    ensures DayOf(1704067199) == 19722 && Weekday(19722) == 6 && !IsBusinessDay(19722)
    ensures DayOf(1704067200) == 19723 && Weekday(19723) == 0
    ensures IsBusinessDay(19723) && IsBusinessDay(19727) && !IsBusinessDay(19728) && !IsBusinessDay(19729)
  {
  }

  /** Business days in the half-open interval (from, to]. */
  function CountIn(from: Day, to: Day): nat
    decreases to - from
  {
    if to <= from then 0 else CountIn(from, to - 1) + if IsBusinessDay(to) then 1 else 0
  }

  /** How many more days of the weekend lie ahead. */
  function WeekendAhead(d: Day): nat {
    if Weekday(d) == 4 then 2 else if Weekday(d) == 5 then 1 else 0
  }

  /** The day the loop lands on. */
  function Land(d: Day, n: nat): Day
    decreases n, WeekendAhead(d)
  {
    if n == 0 then d
    else if IsBusinessDay(d + 1) then Land(d + 1, n - 1)
    else Land(d + 1, n)
  }

  lemma NextDay(t: Time)
    ensures DayOf(t + DAY) == DayOf(t) + 1
  {
  }

  /** One turn of the loop, on the day it reaches. */
  lemma LandStep(d: Day, n: nat)
    requires n > 0
    ensures IsBusinessDay(d + 1) <==> Weekday(d + 1) != 5 && Weekday(d + 1) != 6
    ensures if IsBusinessDay(d + 1) then Land(d, n) == Land(d + 1, n - 1)
            else Land(d, n) == Land(d + 1, n) && WeekendAhead(d + 1) < WeekendAhead(d)
  {
  }

  /** addBusinessDays: for n > 0 the result is a business day with exactly n business days
      after t up to and including it, at t's time of day; otherwise t itself. */
  method AddBusinessDays(t: Time, n: int) returns (r: Time)
    ensures n <= 0 ==> r == t
    ensures n > 0 ==> IsBusinessDay(DayOf(r)) && CountIn(DayOf(t), DayOf(r)) == n
    ensures r == t + (DayOf(r) - DayOf(t)) * DAY
    ensures DayOf(r) == Land(DayOf(t), if n > 0 then n else 0)
  {
    r := t;
    var left := n;
    ghost var d := DayOf(t);
    while left > 0
      invariant d == DayOf(r) && r == t + (d - DayOf(t)) * DAY
      invariant left <= n && (n > 0 ==> left >= 0) && (n <= 0 ==> left == n && r == t)
      invariant left >= 0 ==> Land(d, left) == Land(DayOf(t), n)
      decreases left, WeekendAhead(d)
    {
      NextDay(r);
      LandStep(d, left);
      r := r + DAY;
      d := d + 1;
      if Weekday(DayOf(r)) != 5 && Weekday(DayOf(r)) != 6 {
        left := left - 1;
      }
    }
    if n > 0 {
      LandCounts(DayOf(t), n);
    }
  }

  lemma {:induction false} CountSplits(a: Day, b: Day, c: Day)
    requires a <= b <= c
    ensures CountIn(a, c) == CountIn(a, b) + CountIn(b, c)
    decreases c - b
  {
    if b < c { CountSplits(a, b, c - 1); }
  }

  lemma {:induction false} LandCounts(d: Day, n: nat)
    ensures Land(d, n) >= d && CountIn(d, Land(d, n)) == n
    ensures n > 0 ==> Land(d, n) > d && IsBusinessDay(Land(d, n))
    decreases n, WeekendAhead(d)
  {
    if n > 0 {
      LandCounts(d + 1, if IsBusinessDay(d + 1) then n - 1 else n);
      CountSplits(d, d + 1, Land(d, n));
      assert CountIn(d, d) == 0;
    }
  }

  /** Landing on a business day with n business days passed determines the day. */
  lemma LandIsTheOnlyDay(d: Day, n: nat, r: Day)
    requires n > 0 && r >= d && IsBusinessDay(r) && CountIn(d, r) == n
    ensures r == Land(d, n)
  {
    var l := Land(d, n);
    LandCounts(d, n);
    if r < l {
      CountSplits(d, r, l);
      CountSplits(r, l - 1, l);
    } else if l < r {
      CountSplits(d, l, r);
      CountSplits(l, r - 1, r);
    }
  }

  /** Adding a and then b business days is adding a + b. */
  lemma {:induction false} LandIsAdditive(d: Day, a: nat, b: nat)
    ensures Land(Land(d, a), b) == Land(d, a + b)
    decreases a, WeekendAhead(d)
  {
    if a > 0 {
      LandIsAdditive(d + 1, if IsBusinessDay(d + 1) then a - 1 else a, b);
    }
  }

  /** The closed form: from Monday-based weekday w, n + 2 * floor((w + n) / 5) days. */
  lemma {:induction false} ClosedForm(d: Day, n: nat)
    requires IsBusinessDay(d)
    ensures Land(d, n) == d + n + 2 * ((Weekday(d) + n) / 5)
    decreases n
  {
    if n > 0 {
      NextWeekday(d);
      LandStep(d, n);
      if Weekday(d) < 4 {
        ClosedForm(d + 1, n - 1);
      } else {
        NextWeekday(d + 1);
        NextWeekday(d + 2);
        LandStep(d + 1, n);
        LandStep(d + 2, n);
        ClosedForm(d + 3, n - 1);
        assert (4 + n) / 5 == (n - 1) / 5 + 1;
      }
    }
  }

  lemma NextWeekday(d: Day)
    ensures Weekday(d + 1) == if Weekday(d) == 6 then 0 else Weekday(d) + 1
  {
  }

  lemma FromFriday(f: Day, n: nat)
    requires Weekday(f) == 4 && n > 0
    ensures !IsBusinessDay(f + 1) && !IsBusinessDay(f + 2)
    ensures Land(f + 1, n) == Land(f, n) && Land(f + 2, n) == Land(f, n)
    ensures Land(f, n) == f + n + 2 * ((4 + n) / 5)
  {
    assert Weekday(f + 1) == 5 && Weekday(f + 2) == 6;
    ClosedForm(f, n);
  }

  /** A weekend start lands where the preceding Friday does: the advance is one day shorter
      from Saturday (5) and two from Sunday (6). */
  lemma WeekendStartsLikeFriday(d: Day, n: nat)
    requires !IsBusinessDay(d) && n > 0
    ensures Land(d, n) - d == n + 2 * ((4 + n) / 5) - (Weekday(d) - 4)
  {
    if Weekday(d) == 5 {
      FromFriday(d - 1, n);
    } else {
      FromFriday(d - 2, n);
    }
  }
}
