/** Wrong logins on one account that overlap: Login reads the lock before it compares the
    password and records the failure afterwards (backend/internal/auth/auth.go). */
module ConcurrentLogins {
  import opened Wrappers
  import opened Clock
  import opened Lockout

  /** The two steps of a login with a wrong password: the lock is read, and unless it is closed
      the password is compared; later the failure is recorded, or recording it fails. */
  datatype Event = ReadLock(now: Time) | Record(now: Time, ok: bool)

  /** `inFlight` counts the comparisons whose failure is still to be recorded; `settled` says
      that some failure has been recorded since the last comparison made with none in flight. */
  datatype State = State(account: Account, inFlight: nat, settled: bool)

  predicate ComparesNow(s: State, e: Event) {
    e.ReadLock? && s.account.hasPassword && !IsLocked(s.account, e.now)
  }

  /** A comparison that the counter can account for: no other is in flight, and the previous
      such comparison has left its mark. */
  predicate Counts(s: State, e: Event) {
    ComparesNow(s, e) && s.inFlight == 0 && s.settled
  }

  function Next(s: State, e: Event): State {
    match e
    case ReadLock(_) =>
      if !ComparesNow(s, e) then s else State(s.account, s.inFlight + 1, if s.inFlight == 0 then false else s.settled)
    case Record(now, ok) =>
      if s.inFlight == 0 then s
      else if !ok then s.(inFlight := s.inFlight - 1)
      else State(RecordFailedLogin(s.account, now), s.inFlight - 1, true)
  }

  /** The instants of all comparisons, of those that count, and of the others: made while an
      earlier failure was still to be recorded, or after one that never was. */
  function Compared(s: State, es: seq<Event>): seq<Time>
    decreases |es|
  {
    if es == [] then [] else (if ComparesNow(s, es[0]) then [es[0].now] else []) + Compared(Next(s, es[0]), es[1..])
  }

  function Counted(s: State, es: seq<Event>): seq<Time>
    decreases |es|
  {
    if es == [] then [] else (if Counts(s, es[0]) then [es[0].now] else []) + Counted(Next(s, es[0]), es[1..])
  }

  function Uncounted(s: State, es: seq<Event>): seq<Time>
    decreases |es|
  {
    if es == [] then []
    else
      (if ComparesNow(s, es[0]) && !Counts(s, es[0]) then [es[0].now] else []) + Uncounted(Next(s, es[0]), es[1..])
  }

  ghost predicate InOrder(es: seq<Event>) {
    forall i, j | 0 <= i < j < |es| :: es[i].now <= es[j].now
  }

  lemma {:induction false} InOrderTail(es: seq<Event>)
    requires es != [] && InOrder(es)
    ensures InOrder(es[1..]) && (es[1..] != [] ==> es[0].now <= es[1..][0].now)
  {
    var tail := es[1..];
    assert forall i | 0 <= i < |tail| :: tail[i] == es[i + 1];
  }

  /** A failure can be on its way only while the lock is at most one duration ahead. */
  ghost predicate LockIsNear(s: State, es: seq<Event>) {
    es != [] && s.inFlight > 0 && s.account.lockedUntil.Some? ==>
      s.account.lockedUntil.value <= es[0].now + LOCK_DURATION
  }

  /** What is known of the counted comparisons to come. */
  ghost predicate Guarded(s: State, es: seq<Event>, cs: seq<Time>) {
    && Spaced(cs, s.account.failed)
    && (cs != [] ==> es != [] && cs[0] >= es[0].now)
    && (cs != [] && s.account.lockedUntil.Some? ==> cs[0] >= s.account.lockedUntil.value)
    && (cs != [] && !s.settled ==>
          && Spaced(cs, s.account.failed + 1)
          && (s.account.failed + 1 >= MAX_FAILED_LOGINS ==> cs[0] >= es[0].now + LOCK_DURATION))
  }

  /** After a comparison that counts, the next one waits for a failure to be recorded. */
  lemma {:induction false} CountedReadKeepsGuard(s: State, es: seq<Event>, cs: seq<Time>)
    requires es != [] && Counts(s, es[0]) && InOrder(es) && Guarded(Next(s, es[0]), es[1..], cs)
    ensures Guarded(s, es, [es[0].now] + cs)
  {
    InOrderTail(es);
    PushSpaced(es[0].now, cs, s.account.failed);
  }

  lemma {:induction false} OtherReadKeepsGuard(s: State, es: seq<Event>, cs: seq<Time>)
    requires es != [] && es[0].ReadLock? && !Counts(s, es[0]) && InOrder(es) && Guarded(Next(s, es[0]), es[1..], cs)
    ensures Guarded(s, es, cs)
  {
    InOrderTail(es);
  }

  lemma {:induction false} RecordKeepsGuard(s: State, es: seq<Event>, cs: seq<Time>)
    requires es != [] && es[0].Record? && InOrder(es) && LockIsNear(s, es) && Guarded(Next(s, es[0]), es[1..], cs)
    ensures Guarded(s, es, cs)
  {
    InOrderTail(es);
  }

  lemma {:induction false} CountedAreSpaced(s: State, es: seq<Event>)
    requires InOrder(es) && LockIsNear(s, es)
    ensures Guarded(s, es, Counted(s, es))
    decreases |es|
  {
    if es != [] {
      var t, rest := Next(s, es[0]), es[1..];
      InOrderTail(es);
      CountedAreSpaced(t, rest);
      if Counts(s, es[0]) {
        CountedReadKeepsGuard(s, es, Counted(t, rest));
      } else {
        assert Counted(s, es) == Counted(t, rest);
        if es[0].ReadLock? {
          OtherReadKeepsGuard(s, es, Counted(t, rest));
        } else {
          RecordKeepsGuard(s, es, Counted(t, rest));
        }
      }
    }
  }

  lemma {:induction false} ComparedSplit(s: State, es: seq<Event>, from: Time, length: nat)
    ensures |InWindow(Compared(s, es), from, length)| ==
            |InWindow(Counted(s, es), from, length)| + |InWindow(Uncounted(s, es), from, length)|
    decreases |es|
  {
    if es != [] {
      var t, rest := Next(s, es[0]), es[1..];
      ComparedSplit(t, rest, from, length);
      if ComparesNow(s, es[0]) {
        PrependInWindow(es[0].now, Compared(t, rest), from, length);
        if Counts(s, es[0]) {
          PrependInWindow(es[0].now, Counted(t, rest), from, length);
          assert Uncounted(s, es) == Uncounted(t, rest);
        } else {
          PrependInWindow(es[0].now, Uncounted(t, rest), from, length);
          assert Counted(s, es) == Counted(t, rest);
        }
      } else {
        assert Compared(s, es) == Compared(t, rest) && Counted(s, es) == Counted(t, rest);
        assert Uncounted(s, es) == Uncounted(t, rest);
      }
    }
  }

  /** Under any interleaving of wrong logins: in any window of length L the password is compared
      at most 5 + floor(L / 30 minutes) times, and once more for every comparison in the window
      made while an earlier failure was still to be recorded, or after one that never was. */
  lemma OverlappingBound(a: Account, es: seq<Event>, from: Time, length: nat)
    requires InOrder(es)
    ensures var s := State(a, 0, true);
            |InWindow(Compared(s, es), from, length)| <=
            5 + length / 1800 + |InWindow(Uncounted(s, es), from, length)|
  {
    var s := State(a, 0, true);
    CountedAreSpaced(s, es);
    SpacedBound(Counted(s, es), a.failed, from, length);
    ComparedSplit(s, es, from, length);
  }

  /** Logins that follow one another: each reads the lock and then records its failure. */
  function InSequence(ts: seq<Attempt>): seq<Event> {
    if ts == [] then [] else [ReadLock(ts[0].now), Record(ts[0].now, ts[0].recorded)] + InSequence(ts[1..])
  }

  /** Then the comparisons are those of the sequential model, and if every failure is recorded all
      of them count. */
  lemma {:induction false} SequenceIsSequential(s: State, ts: seq<Attempt>)
    requires s.inFlight == 0 && forall i | 0 <= i < |ts| :: !ts[i].correct
    ensures Compared(s, InSequence(ts)) == Comparisons(s.account, ts)
    ensures s.settled && AllRecorded(ts) ==> Uncounted(s, InSequence(ts)) == []
    decreases |ts|
  {
    if ts != [] {
      var read, record, rest := ReadLock(ts[0].now), Record(ts[0].now, ts[0].recorded), InSequence(ts[1..]);
      var u := Next(Next(s, read), record);
      assert u.inFlight == 0 && u.account == AfterAttempt(s.account, ts[0]);
      assert InSequence(ts)[1..] == [record] + rest && ([record] + rest)[1..] == rest;
      SequenceIsSequential(u, ts[1..]);
      assert Compared(Next(s, read), [record] + rest) == Compared(u, rest);
      assert Uncounted(Next(s, read), [record] + rest) == Uncounted(u, rest);
    }
  }

  function Reads(now: Time, n: nat): seq<Event> {
    seq(n, _ => ReadLock(now))
  }

  /** That is no bound on parallel logins: any number of them that read an open lock at one
      instant all compare, before any of their failures is recorded. */
  lemma {:induction false} ParallelLoginsAllCompare(s: State, now: Time, n: nat)
    requires s.account.hasPassword && !IsLocked(s.account, now)
    ensures Compared(s, Reads(now, n)) == seq(n, _ => now)
    decreases n
  {
    if n > 0 {
      assert Reads(now, n)[1..] == Reads(now, n - 1);
      ParallelLoginsAllCompare(Next(s, ReadLock(now)), now, n - 1);
      assert seq(n, _ => now) == [now] + seq(n - 1, _ => now);
    }
  }
}
