/** Account lockout (backend/internal/identity/store.go) as driven by the password check of
    Login (backend/internal/auth/auth.go). */
module Lockout {
  import opened Wrappers
  import opened Clock

  const MAX_FAILED_LOGINS := 5
  const LOCK_DURATION := 30 * MINUTE

  /** The columns of identities that Login looks at. */
  datatype Account = Account(hasPassword: bool, suspended: bool, superAdmin: bool,
                             failed: nat, lockedUntil: Option<Time>)

  predicate IsLocked(a: Account, now: Time) {
    a.lockedUntil.Some? && now < a.lockedUntil.value
  }

  /** The counter keeps growing when a lock lapses; only a correct password resets it. */
  function RecordFailedLogin(a: Account, now: Time): Account {
    a.(failed := a.failed + 1,
       lockedUntil := if a.failed + 1 >= MAX_FAILED_LOGINS then Some(now + LOCK_DURATION) else a.lockedUntil)
  }

  function ClearFailedLogin(a: Account): Account {
    a.(failed := 0, lockedUntil := None)
  }

  /** One Login call on the account: whether its password is the right one, and whether the
      update of the counter succeeds (a failing one is only logged). */
  datatype Attempt = Attempt(now: Time, correct: bool, recorded: bool)

  predicate Compares(a: Account, t: Attempt) {
    a.hasPassword && !IsLocked(a, t.now)
  }

  function AfterAttempt(a: Account, t: Attempt): Account {
    if !Compares(a, t) || !t.recorded then a
    else if t.correct then ClearFailedLogin(a)
    else RecordFailedLogin(a, t.now)
  }

  /** The instants at which a run of calls compared the password. */
  function Comparisons(a: Account, ts: seq<Attempt>): seq<Time>
    decreases |ts|
  {
    if ts == [] then []
    else (if Compares(a, ts[0]) then [ts[0].now] else []) + Comparisons(AfterAttempt(a, ts[0]), ts[1..])
  }

  ghost predicate Chronological(ts: seq<Attempt>) {
    forall i, j | 0 <= i < j < |ts| :: ts[i].now <= ts[j].now
  }

  /** No success before the last call. */
  ghost predicate WrongUntilLast(ts: seq<Attempt>) {
    forall i | 0 <= i < |ts| - 1 :: !ts[i].correct
  }

  /** From a counter of `failed`, comparison number i leaves a lock once failed + i + 1
      reaches the maximum, so from there on every comparison waits for a lock to lapse. */
  ghost predicate Spaced(cs: seq<Time>, failed: nat) {
    forall i, j | 0 <= i < j < |cs| ::
      cs[i] <= cs[j] && (failed + i + 1 >= MAX_FAILED_LOGINS ==> cs[i] + (j - i) * LOCK_DURATION <= cs[j])
  }

  /** Every wrong password is put on record. */
  ghost predicate AllRecorded(ts: seq<Attempt>) {
    forall i | 0 <= i < |ts| && !ts[i].correct :: ts[i].recorded
  }

  lemma {:induction false} RestOf(ts: seq<Attempt>)
    requires ts != [] && Chronological(ts) && WrongUntilLast(ts) && AllRecorded(ts)
    ensures Chronological(ts[1..]) && WrongUntilLast(ts[1..]) && AllRecorded(ts[1..])
    ensures ts[1..] != [] ==> !ts[0].correct && ts[0].recorded && ts[0].now <= ts[1..][0].now
  {
    var rest := ts[1..];
    assert forall i | 0 <= i < |rest| :: rest[i] == ts[i + 1];
  }

  lemma {:induction false} ComparisonsAreSpaced(a: Account, ts: seq<Attempt>)
    requires Chronological(ts) && WrongUntilLast(ts) && AllRecorded(ts)
    ensures Spaced(Comparisons(a, ts), a.failed)
    ensures Comparisons(a, ts) != [] ==> ts != [] && Comparisons(a, ts)[0] >= ts[0].now
    ensures Comparisons(a, ts) != [] && a.lockedUntil.Some? ==> Comparisons(a, ts)[0] >= a.lockedUntil.value
    decreases |ts|
  {
    if ts != [] {
      var b, rest := AfterAttempt(a, ts[0]), ts[1..];
      RestOf(ts);
      ComparisonsAreSpaced(b, rest);
      var cs := Comparisons(b, rest);
      if !Compares(a, ts[0]) {
        assert Comparisons(a, ts) == cs;
      } else if rest == [] {
        assert Comparisons(a, ts) == [ts[0].now];
      } else {
        assert b == RecordFailedLogin(a, ts[0].now);
        assert Comparisons(a, ts) == [ts[0].now] + cs;
        PushSpaced(ts[0].now, cs, a.failed);
      }
    }
  }

  lemma PushSpaced(c: Time, cs: seq<Time>, failed: nat)
    requires Spaced(cs, failed + 1)
    requires cs != [] ==> c <= cs[0] && (failed + 1 >= MAX_FAILED_LOGINS ==> c + LOCK_DURATION <= cs[0])
    ensures Spaced([c] + cs, failed)
  {
    var all := [c] + cs;
    forall i, j | 0 <= i < j < |all|
      ensures all[i] <= all[j] && (failed + i + 1 >= MAX_FAILED_LOGINS ==> all[i] + (j - i) * LOCK_DURATION <= all[j])
    {
      assert all[j] == cs[j - 1];
      if i == 0 {
        assert j > 1 ==> cs[0] <= cs[j - 1];
      } else {
        assert all[i] == cs[i - 1];
      }
    }
  }

  lemma FewInSpan(cs: seq<Time>, lo: nat, hi: nat, length: nat)
    requires Spaced(cs, 0) && lo <= hi < |cs| && cs[hi] - cs[lo] <= length
    ensures hi - lo + 1 <= MAX_FAILED_LOGINS + length / LOCK_DURATION
  {
    if hi - lo >= MAX_FAILED_LOGINS {
      assert cs[lo] <= cs[lo + MAX_FAILED_LOGINS - 1];
      assert (hi - lo - MAX_FAILED_LOGINS + 1) * LOCK_DURATION <= length;
    }
  }

  /** The comparisons that fall into the closed window of `length` from `from`. */
  function InWindow(cs: seq<Time>, from: Time, length: nat): set<nat> {
    set i: nat | i < |cs| && from <= cs[i] <= from + length
  }

  lemma {:induction false} SizeBetween(s: set<nat>, lo: nat, hi: nat)
    requires lo <= hi && forall x | x in s :: lo <= x <= hi
    ensures |s| <= hi - lo + 1
    decreases hi
  {
    if lo == hi {
      assert s <= {lo};
      assert |s - {lo}| == 0;
    } else {
      SizeBetween(s - {hi}, lo, hi - 1);
    }
  }

  lemma Extremes(s: set<nat>) returns (lo: nat, hi: nat)
    requires s != {}
    ensures lo in s && hi in s && forall x | x in s :: lo <= x <= hi
  {
    var y :| y in s;
    if s == {y} {
      return y, y;
    }
    lo, hi := Extremes(s - {y});
    lo, hi := if y < lo then y else lo, if y > hi then y else hi;
    assert s == s - {y} + {y};
  }

  lemma SpacedBound(cs: seq<Time>, failed: nat, from: Time, length: nat)
    requires Spaced(cs, failed)
    ensures |InWindow(cs, from, length)| <= MAX_FAILED_LOGINS + length / LOCK_DURATION
  {
    var s := InWindow(cs, from, length);
    if s != {} {
      var lo, hi := Extremes(s);
      FewInSpan(cs, lo, hi, length);
      SizeBetween(s, lo, hi);
    }
  }

  lemma RecordedBound(a: Account, ts: seq<Attempt>, from: Time, length: nat)
    requires Chronological(ts) && WrongUntilLast(ts) && AllRecorded(ts)
    ensures |InWindow(Comparisons(a, ts), from, length)| <= MAX_FAILED_LOGINS + length / LOCK_DURATION
  {
    ComparisonsAreSpaced(a, ts);
    SpacedBound(Comparisons(a, ts), a.failed, from, length);
  }

  // ---------- A success in between ----------

  /** A correct password that is put on record gives five more attempts, however soon they
      come; after the fifth wrong one the account is locked for 1800 seconds. */
  lemma {:induction false} SuccessResets(a: Account, c: Attempt, ts: seq<Attempt>)
    requires Compares(a, c) && c.correct && c.recorded
    requires |ts| == 6 && forall i | 0 <= i < 6 :: !ts[i].correct && ts[i].recorded
    ensures var b := AfterAttempt(a, c);
            && Comparisons(b, ts[..5]) == Times(ts, 5)
            && (Comparisons(b, ts) == Times(ts, 5) <==> ts[5].now < ts[4].now + 1800)
            && (Comparisons(b, ts) == Times(ts, 6) <==> ts[5].now >= ts[4].now + 1800)
  {
    var b, locked := AfterAttempt(a, c), LockedAt(AfterAttempt(a, c), ts[4].now);
    WrongOnes(b, ts[..5], 5);
    WrongOnes(b, ts, 5);
    assert ts[..5][5..] == [] && Times(ts[..5], 5) == Times(ts, 5) && Times(ts, 5) + [] == Times(ts, 5);
    assert ts[5..] == [ts[5]] && [ts[5]][1..] == [];
    assert Comparisons(locked, [ts[5]]) == if Compares(locked, ts[5]) then [ts[5].now] else [];
    assert Times(ts, 6) == Times(ts, 5) + [ts[5].now];
    assert |Times(ts, 5)| == 5 && |Times(ts, 6)| == 6;
  }

  function LockedAt(b: Account, at: Time): Account {
    b.(failed := 5, lockedUntil := Some(at + 1800))
  }

  /** The wrong passwords that bring the counter to five are all compared. */
  lemma {:induction false} WrongOnes(b: Account, ts: seq<Attempt>, n: nat)
    requires b.hasPassword && b.lockedUntil == None && b.failed + n == 5 && 0 < n <= |ts|
    requires forall i | 0 <= i < n :: !ts[i].correct && ts[i].recorded
    ensures Comparisons(b, ts) == Times(ts, n) + Comparisons(LockedAt(b, ts[n - 1].now), ts[n..])
    decreases n
  {
    var c, rest := AfterAttempt(b, ts[0]), ts[1..];
    assert ts == [ts[0]] + rest;
    PrependAttempt(b, ts[0], rest);
    if n == 1 {
      assert Times(ts, 1) == [ts[0].now];
    } else {
      WrongOnes(c, rest, n - 1);
      assert rest[n - 1..] == ts[n..] && LockedAt(c, ts[n - 1].now) == LockedAt(b, ts[n - 1].now);
      assert Times(ts, n) == [ts[0].now] + Times(rest, n - 1);
      Regroup([ts[0].now], Times(rest, n - 1), Comparisons(LockedAt(b, ts[n - 1].now), ts[n..]));
    }
  }

  lemma {:induction false} Regroup(x: seq<Time>, y: seq<Time>, z: seq<Time>)
    ensures x + (y + z) == (x + y) + z
  {
  }

  function Times(ts: seq<Attempt>, n: nat): seq<Time>
    requires n <= |ts|
  {
    seq(n, i requires 0 <= i < n => ts[i].now)
  }

  // ---------- Failures that are not put on record ----------

  predicate OffRecord(t: Attempt) {
    !t.correct && !t.recorded
  }

  function OnRecord(ts: seq<Attempt>): seq<Attempt> {
    if ts == [] then [] else (if OffRecord(ts[0]) then [] else [ts[0]]) + OnRecord(ts[1..])
  }

  /** The comparisons of wrong passwords whose failure was not put on record. */
  function Unrecorded(a: Account, ts: seq<Attempt>): seq<Time>
    decreases |ts|
  {
    if ts == [] then []
    else
      (if Compares(a, ts[0]) && OffRecord(ts[0]) then [ts[0].now] else []) +
      Unrecorded(AfterAttempt(a, ts[0]), ts[1..])
  }

  lemma {:induction false} OnRecordKeeps(ts: seq<Attempt>, from: Time)
    requires Chronological(ts) && WrongUntilLast(ts) && (ts != [] ==> from <= ts[0].now)
    ensures var rs := OnRecord(ts);
            Chronological(rs) && WrongUntilLast(rs) && AllRecorded(rs) && forall i | 0 <= i < |rs| :: from <= rs[i].now
    decreases |ts|
  {
    if ts != [] {
      var tail := ts[1..];
      assert forall i | 0 <= i < |tail| :: tail[i] == ts[i + 1];
      OnRecordKeeps(tail, ts[0].now);
      assert |tail| == 0 ==> OnRecord(tail) == [];
    }
  }

  /** Attempts off the record change nothing, so the others compare as if they were alone. */
  lemma {:induction false} ComparisonsSplit(a: Account, ts: seq<Attempt>, from: Time, length: nat)
    ensures |InWindow(Comparisons(a, ts), from, length)| ==
            |InWindow(Comparisons(a, OnRecord(ts)), from, length)| + |InWindow(Unrecorded(a, ts), from, length)|
    decreases |ts|
  {
    if ts != [] {
      var t, b, rest := ts[0], AfterAttempt(a, ts[0]), ts[1..];
      ComparisonsSplit(b, rest, from, length);
      if Compares(a, t) {
        PrependInWindow(t.now, Comparisons(b, rest), from, length);
        if OffRecord(t) {
          PrependInWindow(t.now, Unrecorded(b, rest), from, length);
          assert OnRecord(ts) == OnRecord(rest);
        } else {
          assert Unrecorded(a, ts) == Unrecorded(b, rest);
          PrependAttempt(a, t, OnRecord(rest));
          PrependInWindow(t.now, Comparisons(b, OnRecord(rest)), from, length);
        }
      } else {
        assert b == a && Comparisons(a, ts) == Comparisons(a, rest) && Unrecorded(a, ts) == Unrecorded(a, rest);
        if !OffRecord(t) {
          assert OnRecord(ts)[1..] == OnRecord(rest);
          assert Comparisons(a, OnRecord(ts)) == Comparisons(a, OnRecord(rest));
        } else {
          assert OnRecord(ts) == OnRecord(rest);
        }
      }
    }
  }

  lemma {:induction false} PrependInWindow(c: Time, cs: seq<Time>, from: Time, length: nat)
    ensures |InWindow([c] + cs, from, length)| ==
            |InWindow(cs, from, length)| + if from <= c <= from + length then 1 else 0
    decreases |cs|
  {
    var all, n := [c] + cs, |cs|;
    if cs == [] {
      assert InWindow(all, from, length) == if from <= c <= from + length then {0} else {};
    } else {
      PrependInWindow(c, cs[..n - 1], from, length);
      assert all[..n] == [c] + cs[..n - 1];
      AppendInWindow(all, from, length);
      AppendInWindow(cs, from, length);
    }
  }

  lemma AppendInWindow(cs: seq<Time>, from: Time, length: nat)
    requires cs != []
    ensures var n := |cs| - 1;
            |InWindow(cs, from, length)| ==
            |InWindow(cs[..n], from, length)| + if from <= cs[n] <= from + length then 1 else 0
  {
    var n := |cs| - 1;
    assert InWindow(cs, from, length) ==
           InWindow(cs[..n], from, length) + if from <= cs[n] <= from + length then {n} else {};
  }

  /** Whatever the counter and lock an account starts with: in any window of length L,
      calls that follow one another, without a success in between, compare the password at most
      5 + floor(L / 30 minutes) times, and once more for every failure in the window that
      could not be put on record. */
  lemma LockoutBound(a: Account, ts: seq<Attempt>, from: Time, length: nat)
    requires Chronological(ts) && WrongUntilLast(ts)
    ensures |InWindow(Comparisons(a, ts), from, length)| <=
            5 + length / 1800 + |InWindow(Unrecorded(a, ts), from, length)|
    ensures AllRecorded(ts) ==> |InWindow(Comparisons(a, ts), from, length)| <= 5 + length / 1800
  {
    OnRecordKeeps(ts, if ts == [] then 0 else ts[0].now);
    RecordedBound(a, OnRecord(ts), from, length);
    ComparisonsSplit(a, ts, from, length);
    if AllRecorded(ts) { RecordedBound(a, ts, from, length); }
  }

  /** With no failure put on record there is no bound at all. */
  lemma {:induction false} NothingOnRecord(a: Account, now: Time, n: nat)
    requires a.hasPassword && !IsLocked(a, now)
    ensures Comparisons(a, seq(n, _ => Attempt(now, false, false))) == seq(n, _ => now)
    decreases n
  {
    var ts := seq(n, _ => Attempt(now, false, false));
    if n > 0 {
      assert ts[1..] == seq(n - 1, _ => Attempt(now, false, false));
      NothingOnRecord(a, now, n - 1);
      assert seq(n, _ => now) == [now] + seq(n - 1, _ => now);
    }
  }

  /** `n` wrong passwords, each as soon as the previous lock has lapsed. */
  function Patient(start: Time, n: nat): seq<Attempt>
    decreases n
  {
    if n == 0 then [] else [Attempt(start, false, true)] + Patient(start + LOCK_DURATION, n - 1)
  }

  lemma {:induction false} PatientAlwaysCompares(a: Account, start: Time, n: nat)
    requires a.hasPassword && a.failed >= MAX_FAILED_LOGINS - 1 && !IsLocked(a, start)
    ensures |Comparisons(a, Patient(start, n))| == n && WrongUntilLast(Patient(start, n))
    ensures forall i | 0 <= i < n :: start <= Comparisons(a, Patient(start, n))[i] <= start + (n - 1) * LOCK_DURATION
    decreases n
  {
    if n > 0 {
      var ts := Patient(start, n);
      PatientAlwaysCompares(AfterAttempt(a, ts[0]), start + LOCK_DURATION, n - 1);
      assert ts[1..] == Patient(start + LOCK_DURATION, n - 1);
    }
  }

  /** `n` wrong passwords at 0, before `ts`. */
  function Quick(n: nat, ts: seq<Attempt>): seq<Attempt> {
    if n == 0 then ts else [Attempt(0, false, true)] + Quick(n - 1, ts)
  }

  lemma {:induction false} QuickCompares(a: Account, n: nat, ts: seq<Attempt>, length: nat)
    requires a.hasPassword && a.lockedUntil.None? && a.failed + n < MAX_FAILED_LOGINS
    ensures |InWindow(Comparisons(a, Quick(n, ts)), 0, length)| ==
            n + |InWindow(Comparisons(a.(failed := a.failed + n), ts), 0, length)|
    decreases n
  {
    if n > 0 {
      var w, b := Attempt(0, false, true), a.(failed := a.failed + 1);
      assert AfterAttempt(a, w) == b && b.(failed := b.failed + (n - 1)) == a.(failed := a.failed + n);
      QuickCompares(b, n - 1, ts, length);
      PrependAttempt(a, w, Quick(n - 1, ts));
      PrependInWindow(0, Comparisons(b, Quick(n - 1, ts)), 0, length);
    }
  }

  /** The bound is reached for every window of k locks: four quick failures, then k + 1
      patient ones. */
  lemma {:induction false} LockoutBoundIsTight(a: Account, k: nat)
    requires a.hasPassword && a.failed == 0 && a.lockedUntil.None?
    ensures |InWindow(Comparisons(a, Quick(4, Patient(0, k + 1))), 0, k * LOCK_DURATION)| ==
            5 + k
  {
    var b, ps := a.(failed := 4), Patient(0, k + 1);
    QuickCompares(a, 4, ps, k * LOCK_DURATION);
    PatientAlwaysCompares(b, 0, k + 1);
    AllInWindow(Comparisons(b, ps), 0, k * LOCK_DURATION);
  }

  lemma {:induction false} AllInWindow(cs: seq<Time>, from: Time, length: nat)
    requires forall i | 0 <= i < |cs| :: from <= cs[i] <= from + length
    ensures |InWindow(cs, from, length)| == |cs|
  {
    if cs != [] {
      var n := |cs| - 1;
      AllInWindow(cs[..n], from, length);
      assert InWindow(cs, from, length) == InWindow(cs[..n], from, length) + {n};
    } else {
      assert InWindow(cs, from, length) == {};
    }
  }

  lemma PrependAttempt(a: Account, t: Attempt, ts: seq<Attempt>)
    requires Compares(a, t)
    ensures Comparisons(a, [t] + ts) == [t.now] + Comparisons(AfterAttempt(a, t), ts)
  {
    assert ([t] + ts)[1..] == ts;
  }
}
