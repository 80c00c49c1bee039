/**
 * The failure counter and lockout of handlers/auth/login.handler.ts for one
 * user-and-address key.  Times are milliseconds; logins on one key are taken one
 * after the other, each with the instant at which the lockout is read and the
 * later instant at which the outcome of the password check is recorded.
 */
module LoginLockout {
  import opened Wrappers
  import opened TtlCache

  const MAX_ATTEMPTS := 5
  const LOCKOUT_MS := 1000 * 900
  const ATTEMPTS_MS := 1000 * 1800

  datatype PasswordCheck =
    | Valid
    | Wrong
    | Delayed
    | Threw

  datatype Login = Login(checkedAt: int, recordedAt: int, check: PasswordCheck)

  datatype Result =
    | AccountLocked
    | Unauthorized(counted: bool)
    | TemporarilyBlocked
    | PasswordAccepted

  datatype Slots = Slots(attempts: Option<Entry<int>>, lockout: Option<Entry<int>>)

  const NoSlots := Slots(None, None)

  function AttemptsAt(s: Slots, now: int): int {
    match Lookup(s.attempts, now)
    case Some(n) => n
    case None => 0
  }

  function Step(s: Slots, l: Login): (Slots, Result) {
    if Lookup(s.lockout, l.checkedAt).Some? then (s, AccountLocked)
    else match l.check
      case Threw => (s, Unauthorized(false))
      case Delayed => (s, TemporarilyBlocked)
      case Valid => (s.(attempts := None), PasswordAccepted)
      case Wrong =>
        var attempts := AttemptsAt(s, l.recordedAt) + 1;
        if attempts >= MAX_ATTEMPTS then
          (Slots(None, Some(Store(1, l.recordedAt, LOCKOUT_MS))), Unauthorized(true))
        else
          (s.(attempts := Some(Store(attempts, l.recordedAt, ATTEMPTS_MS))), Unauthorized(true))
  }

  class LoginHandler {
    var attempts: map<string, Entry<int>>
    var lockouts: map<string, Entry<int>>

    constructor ()
      ensures attempts == map[] && lockouts == map[]
    {
      attempts, lockouts := map[], map[];
    }

    function SlotsOf(key: string): Slots
      reads this
    {
      Slots(if key in attempts then Some(attempts[key]) else None,
            if key in lockouts then Some(lockouts[key]) else None)
    }

    method Handle(key: string, l: Login) returns (result: Result)
      modifies this
      ensures (SlotsOf(key), result) == Step(old(SlotsOf(key)), l)
      ensures forall other :: other != key ==> SlotsOf(other) == old(SlotsOf(other))
    {
      if Lookup(SlotsOf(key).lockout, l.checkedAt).Some? {
        return AccountLocked;
      }
      match l.check {
        case Threw =>
          return Unauthorized(false);
        case Delayed =>
          return TemporarilyBlocked;
        case Wrong =>
          var newAttempts := AttemptsAt(SlotsOf(key), l.recordedAt) + 1;
          attempts := attempts[key := Store(newAttempts, l.recordedAt, ATTEMPTS_MS)];
          if newAttempts >= MAX_ATTEMPTS {
            lockouts := lockouts[key := Store(1, l.recordedAt, LOCKOUT_MS)];
            attempts := attempts - {key};
          }
          return Unauthorized(true);
        case Valid =>
          attempts := attempts - {key};
          return PasswordAccepted;
      }
    }
  }

  // ----- whole traces

  function After(s: Slots, logins: seq<Login>): Slots {
    if logins == [] then s
    else Step(After(s, logins[..|logins| - 1]), logins[|logins| - 1]).0
  }

  function ResultAt(s: Slots, logins: seq<Login>, i: nat): Result
    requires i < |logins|
  {
    Step(After(s, logins[..i]), logins[i]).1
  }

  /** Counted failures recorded in the half-open interval from lo to hi. */
  function CountedIn(s: Slots, logins: seq<Login>, lo: int, hi: int): nat {
    if logins == [] then 0
    else
      var n := |logins| - 1;
      CountedIn(s, logins[..n], lo, hi)
      + (if lo <= logins[n].recordedAt < hi && ResultAt(s, logins, n) == Unauthorized(true) then 1 else 0)
  }

  predicate Serialized(logins: seq<Login>) {
    && (forall i :: 0 <= i < |logins| ==> logins[i].checkedAt <= logins[i].recordedAt)
    && (forall i, j :: 0 <= i < j < |logins| ==> logins[i].recordedAt <= logins[j].checkedAt)
  }

  /** Passwords accepted in the half-open interval from lo to hi. */
  function AcceptedIn(s: Slots, logins: seq<Login>, lo: int, hi: int): nat {
    if logins == [] then 0
    else
      var n := |logins| - 1;
      AcceptedIn(s, logins[..n], lo, hi)
      + (if lo <= logins[n].recordedAt < hi && ResultAt(s, logins, n) == PasswordAccepted then 1 else 0)
  }

  /** A stored count is below the maximum, and no count is stored when a lockout starts. */
  ghost predicate Sound(s: Slots) {
    s.attempts.Some? ==> 1 <= s.attempts.value.value < MAX_ATTEMPTS
  }

  /** From the start, after any logins at all, the stored count stays below the maximum. */
  lemma {:induction false} StoredCountBelowMaximum(logins: seq<Login>)
    ensures Sound(After(NoSlots, logins))
  {
    if logins != [] {
      StoredCountBelowMaximum(logins[..|logins| - 1]);
    }
  }

  function StoredCount(s: Slots): int {
    if s.attempts.Some? then s.attempts.value.value else 0
  }

  /**
   * The account for the interval that starts at a, after n counted failures and p
   * accepted passwords in it: all but four failures for each acceptance are in the
   * stored count, or a lockout covers the rest of the interval, or it is over.
   */
  ghost predicate Account(s: Slots, a: int, n: nat, p: nat, last: int) {
    var pending := n - 4 * p;
    || (pending <= StoredCount(s)
        && (pending > 0 ==>
              last >= a && s.attempts.value.expires.Some? && s.attempts.value.expires.value >= a + ATTEMPTS_MS))
    || (pending <= MAX_ATTEMPTS && s.lockout.Some? && s.lockout.value.expires.Some?
        && s.lockout.value.expires.value >= a + LOCKOUT_MS)
    || (pending <= MAX_ATTEMPTS && last >= a + LOCKOUT_MS)
  }

  /** What a login adds to a count of the interval that starts at a. */
  function InInterval(a: int, l: Login, counts: bool): nat {
    if a <= l.recordedAt < a + LOCKOUT_MS && counts then 1 else 0
  }

  lemma StepAccount(s: Slots, l: Login, a: int, n: nat, p: nat, last: int)
    requires Sound(s) && Account(s, a, n, p, last) && last <= l.checkedAt <= l.recordedAt
    ensures var (s', r) := Step(s, l);
            && Sound(s')
            && Account(s', a, n + InInterval(a, l, r == Unauthorized(true)),
                       p + InInterval(a, l, r == PasswordAccepted), l.recordedAt)
  {
  }

  function LastRecorded(logins: seq<Login>, otherwise: int): int {
    if logins == [] then otherwise else logins[|logins| - 1].recordedAt
  }

  lemma {:induction false} StretchAccount(s: Slots, logins: seq<Login>, a: int, start: int)
    requires Sound(s) && Serialized(logins) && (logins != [] ==> start <= logins[0].checkedAt)
    ensures Sound(After(s, logins))
    ensures Account(After(s, logins), a, CountedIn(s, logins, a, a + LOCKOUT_MS),
                    AcceptedIn(s, logins, a, a + LOCKOUT_MS), LastRecorded(logins, start))
  {
    if logins != [] {
      var n := |logins| - 1;
      var before := logins[..n];
      StretchAccount(s, before, a, start);
      StepAccount(After(s, before), logins[n], a, CountedIn(s, before, a, a + LOCKOUT_MS),
                  AcceptedIn(s, before, a, a + LOCKOUT_MS), LastRecorded(before, start));
    }
  }

  /**
   * Whatever came before, any logins have at most five counted failures in a
   * half-open interval of the lockout's length, and four more for each password
   * accepted in it.
   */
  lemma FailuresPerInterval(earlier: seq<Login>, logins: seq<Login>, a: int)
    requires Serialized(logins)
    ensures var s := After(NoSlots, earlier);
            CountedIn(s, logins, a, a + LOCKOUT_MS) <= MAX_ATTEMPTS + 4 * AcceptedIn(s, logins, a, a + LOCKOUT_MS)
  {
    StoredCountBelowMaximum(earlier);
    StretchAccount(After(NoSlots, earlier), logins, a, if logins == [] then a else logins[0].checkedAt);
  }

  // ----- the lockout holds

  ghost predicate Triggers(s: Slots, l: Login) {
    Step(s, l).1 == Unauthorized(true) && AttemptsAt(s, l.recordedAt) + 1 >= MAX_ATTEMPTS
  }

  lemma AfterSplits(s: Slots, first: seq<Login>, rest: seq<Login>)
    ensures After(s, first + rest) == After(After(s, first), rest)
  {
    if rest == [] {
      assert first + rest == first;
    } else {
      var n := |rest| - 1;
      assert (first + rest)[..|first| + n] == first + rest[..n];
      AfterSplits(s, first, rest[..n]);
    }
  }

  lemma LockedThroughout(s: Slots, logins: seq<Login>, until: int)
    requires s.lockout.Some? && s.lockout.value.expires == Some(until)
    requires forall i :: 0 <= i < |logins| ==> logins[i].checkedAt < until
    ensures After(s, logins) == s
  {
    if logins != [] { LockedThroughout(s, logins[..|logins| - 1], until); }
  }

  /**
   * Once the fifth failure is recorded at i, a later login is refused unseen until
   * the lockout has run its time, and the first one from then on is not.
   */
  lemma LockoutHolds(logins: seq<Login>, i: nat, j: nat)
    requires Serialized(logins) && i < j < |logins|
    requires Triggers(After(NoSlots, logins[..i]), logins[i])
    ensures logins[j].checkedAt < logins[i].recordedAt + LOCKOUT_MS ==> ResultAt(NoSlots, logins, j) == AccountLocked
    ensures (logins[j].checkedAt >= logins[i].recordedAt + LOCKOUT_MS
             && forall k :: i < k < j ==> logins[k].checkedAt < logins[i].recordedAt + LOCKOUT_MS)
              ==> ResultAt(NoSlots, logins, j) != AccountLocked
  {
    var until := logins[i].recordedAt + LOCKOUT_MS;
    if forall k :: i < k < j ==> logins[k].checkedAt < until {
      assert logins[..i + 1][..i] == logins[..i];
      assert logins[..j] == logins[..i + 1] + logins[i + 1..j];
      AfterSplits(NoSlots, logins[..i + 1], logins[i + 1..j]);
      LockedThroughout(After(NoSlots, logins[..i + 1]), logins[i + 1..j], until);
    } else {
      var k :| i < k < j && logins[k].checkedAt >= until;
      assert logins[k].recordedAt <= logins[j].checkedAt;
    }
  }

  // ----- what each login is answered

  /** Login i starts a lockout. */
  ghost predicate LocksAt(logins: seq<Login>, i: int) {
    0 <= i < |logins| && Triggers(After(NoSlots, logins[..i]), logins[i])
  }

  /** A lockout that started before login j has not run its 900 seconds when that login looks for it. */
  ghost predicate Locked(logins: seq<Login>, j: nat)
    requires j < |logins|
  {
    exists i :: 0 <= i < j && LocksAt(logins, i) && logins[j].checkedAt < logins[i].recordedAt + 900_000
  }

  lemma {:induction false} LockoutStems(logins: seq<Login>, n: nat) returns (i: nat)
    requires n <= |logins| && After(NoSlots, logins[..n]).lockout.Some?
    ensures i < n && LocksAt(logins, i)
    ensures After(NoSlots, logins[..n]).lockout == Some(Store(1, logins[i].recordedAt, LOCKOUT_MS))
  {
    if n == 0 {
      assert false;
    } else {
      assert logins[..n][..n - 1] == logins[..n - 1];
      if LocksAt(logins, n - 1) {
        i := n - 1;
      } else {
        i := LockoutStems(logins, n - 1);
      }
    }
  }

  lemma LockedExactlyWhen(logins: seq<Login>, j: nat)
    requires Serialized(logins) && j < |logins|
    ensures ResultAt(NoSlots, logins, j) == AccountLocked <==> Locked(logins, j)
  {
    if ResultAt(NoSlots, logins, j) == AccountLocked {
      var i := LockoutStems(logins, j);
    }
    if i :| 0 <= i < j && LocksAt(logins, i) && logins[j].checkedAt < logins[i].recordedAt + 900_000 {
      LockoutHolds(logins, i, j);
    }
  }

  /**
   * Every answer, in every run: while a lockout lasts the login is refused unseen;
   * otherwise the password check decides, and only a valid password is accepted.
   */
  lemma AnsweredExactlyWhen(logins: seq<Login>, j: nat)
    requires Serialized(logins) && j < |logins|
    ensures ResultAt(NoSlots, logins, j) == AccountLocked <==> Locked(logins, j)
    ensures ResultAt(NoSlots, logins, j) == PasswordAccepted <==> !Locked(logins, j) && logins[j].check.Valid?
    ensures ResultAt(NoSlots, logins, j) == Unauthorized(true) <==> !Locked(logins, j) && logins[j].check.Wrong?
    ensures ResultAt(NoSlots, logins, j) == Unauthorized(false) <==> !Locked(logins, j) && logins[j].check.Threw?
    ensures ResultAt(NoSlots, logins, j) == TemporarilyBlocked <==> !Locked(logins, j) && logins[j].check.Delayed?
  {
    LockedExactlyWhen(logins, j);
    hide Locked;
  }

  /** Only a counted failure and an accepted password touch the counters, and the latter leaves the lockout alone. */
  lemma CountersChangeOnly(logins: seq<Login>, i: nat)
    requires i < |logins|
    ensures var s, s' := After(NoSlots, logins[..i]), After(NoSlots, logins[..i + 1]);
            match ResultAt(NoSlots, logins, i)
            case PasswordAccepted => s' == s.(attempts := None)
            case Unauthorized(true) => true
            case _ => s' == s
  {
    assert logins[..i + 1][..i] == logins[..i];
  }

  // ----- what starts a lockout

  /**
   * Counted failures, each recorded less than 1800 seconds after the one before,
   * with no password accepted from the first to the last.
   */
  ghost predicate Streak(logins: seq<Login>, ks: seq<nat>) {
    && (forall j :: 0 <= j < |ks| ==> ks[j] < |logins| && ResultAt(NoSlots, logins, ks[j]) == Unauthorized(true))
    && (forall j :: 0 < j < |ks| ==>
          && ks[j - 1] < ks[j]
          && logins[ks[j]].recordedAt < logins[ks[j - 1]].recordedAt + 1_800_000)
    && (ks != [] ==> NoneAccepted(logins, ks[0], ks[|ks| - 1]))
  }

  ghost predicate NoneAccepted(logins: seq<Login>, from: nat, to: nat)
    requires to <= |logins|
  {
    forall m: nat :: from <= m < to ==> ResultAt(NoSlots, logins, m) != PasswordAccepted
  }

  /** No lockout starts from the one to before the other. */
  ghost predicate NoLockIn(logins: seq<Login>, from: nat, to: nat) {
    forall m: nat :: from <= m < to ==> !LocksAt(logins, m)
  }

  /** The failures that a stored count stands for. */
  ghost predicate StandsFor(logins: seq<Login>, n: nat, ks: seq<nat>)
    requires n <= |logins|
  {
    && ks != [] && Streak(logins, ks) && ks[|ks| - 1] < n
    && NoneAccepted(logins, ks[0], n) && NoLockIn(logins, ks[0], n)
    && After(NoSlots, logins[..n]).attempts == Some(Store(|ks|, logins[ks[|ks| - 1]].recordedAt, ATTEMPTS_MS))
  }

  lemma StreakExtends(logins: seq<Login>, m: nat, ks: seq<nat>)
    requires m < |logins| && StandsFor(logins, m, ks)
    requires ResultAt(NoSlots, logins, m) == Unauthorized(true) && !LocksAt(logins, m)
    requires logins[m].recordedAt < logins[ks[|ks| - 1]].recordedAt + ATTEMPTS_MS
    ensures StandsFor(logins, m + 1, ks + [m])
  {
    assert logins[..m + 1][..m] == logins[..m];
    assert Streak(logins, ks + [m]) by { hide After, Step; }
  }

  lemma StreakKept(logins: seq<Login>, m: nat, ks: seq<nat>)
    requires m < |logins| && StandsFor(logins, m, ks) && ResultAt(NoSlots, logins, m) != Unauthorized(true)
    requires ResultAt(NoSlots, logins, m) != PasswordAccepted
    ensures StandsFor(logins, m + 1, ks)
  {
    hide Streak;
    CountersChangeOnly(logins, m);
  }

  lemma StreakBegins(logins: seq<Login>, m: nat)
    requires m < |logins| && ResultAt(NoSlots, logins, m) == Unauthorized(true) && !LocksAt(logins, m)
    requires Lookup(After(NoSlots, logins[..m]).attempts, logins[m].recordedAt).None?
    ensures StandsFor(logins, m + 1, [m])
  {
    assert logins[..m + 1][..m] == logins[..m];
  }

  lemma {:induction false} StoredStreak(logins: seq<Login>, n: nat) returns (ks: seq<nat>)
    requires n <= |logins| && After(NoSlots, logins[..n]).attempts.Some?
    ensures StandsFor(logins, n, ks)
  {
    if n == 0 {
      ks := [];
      assert false;
    } else {
      var m := n - 1;
      StoredBefore(logins, m);
      hide After, Step, StandsFor;
      if ResultAt(NoSlots, logins, m) != Unauthorized(true) {
        ks := StoredStreak(logins, m);
        StreakKept(logins, m, ks);
      } else if Lookup(After(NoSlots, logins[..m]).attempts, logins[m].recordedAt).Some? {
        ks := StoredStreak(logins, m);
        StandsUntil(logins, m, ks);
        StreakExtends(logins, m, ks);
        ks := ks + [m];
      } else {
        StreakBegins(logins, m);
        ks := [m];
      }
    }
  }

  lemma StandsUntil(logins: seq<Login>, m: nat, ks: seq<nat>)
    requires m <= |logins| && StandsFor(logins, m, ks)
    ensures ks != [] && ks[|ks| - 1] < |logins|
    ensures After(NoSlots, logins[..m]).attempts.Some?
    ensures After(NoSlots, logins[..m]).attempts.value.expires
         == Some(logins[ks[|ks| - 1]].recordedAt + ATTEMPTS_MS)
  {
  }

  /** A count that is stored was stored before, unless this failure stores it; and then nothing was locked. */
  lemma StoredBefore(logins: seq<Login>, m: nat)
    requires m < |logins| && After(NoSlots, logins[..m + 1]).attempts.Some?
    ensures !LocksAt(logins, m) && ResultAt(NoSlots, logins, m) != PasswordAccepted
    ensures ResultAt(NoSlots, logins, m) != Unauthorized(true) ==> After(NoSlots, logins[..m]).attempts.Some?
  {
    assert logins[..m + 1][..m] == logins[..m];
  }

  /** The count is at least c, and lasts until then. */
  ghost predicate Counts(s: Slots, c: int, until: int) {
    s.attempts.Some? && s.attempts.value.value >= c
    && s.attempts.value.expires.Some? && s.attempts.value.expires.value >= until
  }

  lemma {:induction false} CountsThrough(logins: seq<Login>, m: nat, n: nat, c: int, until: int)
    requires m <= n <= |logins| && Counts(After(NoSlots, logins[..m]), c, until)
    requires forall k :: m <= k < n ==> logins[k].recordedAt < until <= logins[k].recordedAt + ATTEMPTS_MS
    requires NoneAccepted(logins, m, n) && NoLockIn(logins, m, n)
    ensures Counts(After(NoSlots, logins[..n]), c, until)
  {
    if m < n {
      CountsThrough(logins, m, n - 1, c, until);
      assert logins[..n][..n - 1] == logins[..n - 1];
      assert !LocksAt(logins, n - 1) && ResultAt(NoSlots, logins, n - 1) != PasswordAccepted;
    }
  }

  lemma FailureCounts(s: Slots, l: Login, c: nat)
    requires Sound(s) && Step(s, l).1 == Unauthorized(true) && !Triggers(s, l)
    requires c == 0 || (Counts(s, c, l.recordedAt + 1))
    ensures Counts(Step(s, l).0, c + 1, l.recordedAt + ATTEMPTS_MS)
  {
  }

  /** Between two failures of a streak the count is kept. */
  lemma KeptBetween(logins: seq<Login>, ks: seq<nat>, j: nat)
    requires Serialized(logins) && Streak(logins, ks) && 0 < j < |ks| && NoLockIn(logins, ks[0], ks[j] + 1)
    requires Counts(After(NoSlots, logins[..ks[j - 1] + 1]), j, logins[ks[j - 1]].recordedAt + ATTEMPTS_MS)
    ensures Counts(After(NoSlots, logins[..ks[j]]), j, logins[ks[j]].recordedAt + 1)
  {
    hide After, Step, Counts, LocksAt;
    var before, k := ks[j - 1], ks[j];
    StreakInOrder(logins, ks, j - 1);
    StreakInOrder(logins, ks, |ks| - 1);
    assert ks[0] <= before < k <= ks[|ks| - 1];
    CountsThrough(logins, before + 1, k, j, logins[before].recordedAt + ATTEMPTS_MS);
    CountsLess(After(NoSlots, logins[..k]), j, logins[before].recordedAt + ATTEMPTS_MS, logins[k].recordedAt + 1);
  }

  lemma CountsLess(s: Slots, c: int, until: int, sooner: int)
    requires Counts(s, c, until) && sooner <= until
    ensures Counts(s, c, sooner)
  {
  }

  lemma CountedAt(logins: seq<Login>, k: nat, c: nat)
    requires k < |logins| && ResultAt(NoSlots, logins, k) == Unauthorized(true) && !LocksAt(logins, k)
    requires c == 0 || Counts(After(NoSlots, logins[..k]), c, logins[k].recordedAt + 1)
    ensures Counts(After(NoSlots, logins[..k + 1]), c + 1, logins[k].recordedAt + ATTEMPTS_MS)
  {
    assert logins[..k + 1][..k] == logins[..k];
    StoredCountBelowMaximum(logins[..k]);
    hide Step, Triggers, Counts, Sound;
    FailureCounts(After(NoSlots, logins[..k]), logins[k], c);
  }

  /** Behind failure j of a streak in which nothing was locked, the count is at least j + 1. */
  lemma {:induction false} StreakCounts(logins: seq<Login>, ks: seq<nat>, j: nat)
    requires Serialized(logins) && Streak(logins, ks) && j < |ks| && NoLockIn(logins, ks[0], ks[j] + 1)
    ensures Counts(After(NoSlots, logins[..ks[j] + 1]), j + 1, logins[ks[j]].recordedAt + ATTEMPTS_MS)
  {
    StreakInOrder(logins, ks, j);
    assert !LocksAt(logins, ks[j]);
    hide After, Step, Counts, LocksAt;
    if j > 0 {
      assert NoLockIn(logins, ks[0], ks[j - 1] + 1);
      StreakCounts(logins, ks, j - 1);
      KeptBetween(logins, ks, j);
    }
    CountedAt(logins, ks[j], j);
  }

  lemma {:induction false} StreakInOrder(logins: seq<Login>, ks: seq<nat>, j: nat)
    requires Streak(logins, ks) && j < |ks|
    ensures forall i :: 0 <= i < j ==> ks[i] < ks[j]
  {
    if j > 0 {
      StreakInOrder(logins, ks, j - 1);
    }
  }

  /** Five failures of a streak that ends at i, with no lockout on the way. */
  ghost predicate FifthOf(logins: seq<Login>, i: nat, ks: seq<nat>) {
    |ks| == 5 && Streak(logins, ks) && ks[4] == i && NoLockIn(logins, ks[0], i)
  }

  /** A lockout starts exactly with the fifth failure of such a streak. */
  lemma LockoutStartsExactlyWhen(logins: seq<Login>, i: nat)
    requires Serialized(logins) && i < |logins|
    ensures LocksAt(logins, i) <==> exists ks: seq<nat> :: FifthOf(logins, i, ks)
  {
    hide FifthOf, Streak, LocksAt, After, Step;
    if LocksAt(logins, i) {
      var ks := LockedBehindFive(logins, i);
    }
    if ks: seq<nat> :| FifthOf(logins, i, ks) {
      FifthLocks(logins, ks, i);
    }
  }

  lemma LockedBehindFive(logins: seq<Login>, i: nat) returns (ks: seq<nat>)
    requires i < |logins| && LocksAt(logins, i)
    ensures FifthOf(logins, i, ks)
  {
    StoredCountBelowMaximum(logins[..i]);
    ks := StoredStreak(logins, i);
    StreakEnds(logins, i, ks);
    ks := ks + [i];
  }

  lemma StreakEnds(logins: seq<Login>, m: nat, ks: seq<nat>)
    requires m < |logins| && StandsFor(logins, m, ks) && ResultAt(NoSlots, logins, m) == Unauthorized(true)
    requires logins[m].recordedAt < logins[ks[|ks| - 1]].recordedAt + ATTEMPTS_MS
    ensures Streak(logins, ks + [m]) && NoLockIn(logins, ks[0], m)
  {
    hide After, Step;
  }

  lemma FifthLocks(logins: seq<Login>, ks: seq<nat>, i: nat)
    requires Serialized(logins) && i < |logins| && FifthOf(logins, i, ks)
    ensures LocksAt(logins, i)
  {
    StreakInOrder(logins, ks, 4);
    StreakInOrder(logins, ks, 3);
    StreakCounts(logins, ks, 3);
    var until := logins[ks[3]].recordedAt + ATTEMPTS_MS;
    CountsThrough(logins, ks[3] + 1, i, 4, until);
  }

  // ----- an accepted password starts the count again

  const FOUR_THEN_VALID: seq<Login> :=
    [Login(0, 0, Wrong), Login(0, 0, Wrong), Login(0, 0, Wrong), Login(0, 0, Wrong), Login(0, 0, Valid)]

  function Rounds(k: nat): seq<Login> {
    if k == 0 then [] else Rounds(k - 1) + FOUR_THEN_VALID
  }

  lemma Extends(logins: seq<Login>, l: Login, lo: int, hi: int)
    ensures var (s, r) := Step(After(NoSlots, logins), l);
            && After(NoSlots, logins + [l]) == s
            && CountedIn(NoSlots, logins + [l], lo, hi)
                 == CountedIn(NoSlots, logins, lo, hi)
                  + (if lo <= l.recordedAt < hi && r == Unauthorized(true) then 1 else 0)
            && AcceptedIn(NoSlots, logins + [l], lo, hi)
                 == AcceptedIn(NoSlots, logins, lo, hi)
                  + (if lo <= l.recordedAt < hi && r == PasswordAccepted then 1 else 0)
  {
    assert (logins + [l])[..|logins|] == logins;
  }

  function Counting(n: nat): Slots {
    if n == 0 then NoSlots else Slots(Some(Store(n, 0, ATTEMPTS_MS)), None)
  }

  lemma WrongCounts(logins: seq<Login>, n: nat)
    requires After(NoSlots, logins) == Counting(n) && n < 4
    ensures After(NoSlots, logins + [Login(0, 0, Wrong)]) == Counting(n + 1)
    ensures CountedIn(NoSlots, logins + [Login(0, 0, Wrong)], 0, LOCKOUT_MS)
         == CountedIn(NoSlots, logins, 0, LOCKOUT_MS) + 1
    ensures AcceptedIn(NoSlots, logins + [Login(0, 0, Wrong)], 0, LOCKOUT_MS)
         == AcceptedIn(NoSlots, logins, 0, LOCKOUT_MS)
  {
    Extends(logins, Login(0, 0, Wrong), 0, LOCKOUT_MS);
  }

  /** Four wrong passwords at once. */
  function FourMore(t: seq<Login>): seq<Login> {
    var wrong := Login(0, 0, Wrong);
    t + [wrong] + [wrong] + [wrong] + [wrong]
  }

  lemma FourWrong(t: seq<Login>)
    requires After(NoSlots, t) == NoSlots
    ensures After(NoSlots, FourMore(t)) == Counting(4)
    ensures CountedIn(NoSlots, FourMore(t), 0, LOCKOUT_MS) == CountedIn(NoSlots, t, 0, LOCKOUT_MS) + 4
    ensures AcceptedIn(NoSlots, FourMore(t), 0, LOCKOUT_MS) == AcceptedIn(NoSlots, t, 0, LOCKOUT_MS)
  {
    hide After, CountedIn, AcceptedIn;
    var wrong := Login(0, 0, Wrong);
    assert Counting(0) == NoSlots;
    WrongCounts(t, 0);
    WrongCounts(t + [wrong], 1);
    WrongCounts(t + [wrong] + [wrong], 2);
    WrongCounts(t + [wrong] + [wrong] + [wrong], 3);
  }

  lemma OneMoreRound(t: seq<Login>)
    requires After(NoSlots, t) == NoSlots
    ensures After(NoSlots, t + FOUR_THEN_VALID) == NoSlots
    ensures CountedIn(NoSlots, t + FOUR_THEN_VALID, 0, LOCKOUT_MS) == CountedIn(NoSlots, t, 0, LOCKOUT_MS) + 4
    ensures AcceptedIn(NoSlots, t + FOUR_THEN_VALID, 0, LOCKOUT_MS) == AcceptedIn(NoSlots, t, 0, LOCKOUT_MS) + 1
  {
    FourWrong(t);
    Extends(FourMore(t), Login(0, 0, Valid), 0, LOCKOUT_MS);
    assert t + FOUR_THEN_VALID == FourMore(t) + [Login(0, 0, Valid)];
  }

  lemma AllAtOnce(k: nat)
    ensures forall l :: l in Rounds(k) ==> l.checkedAt == l.recordedAt == 0
  {
  }

  lemma {:induction false} RoundsCount(k: nat)
    ensures After(NoSlots, Rounds(k)) == NoSlots && Serialized(Rounds(k))
    ensures CountedIn(NoSlots, Rounds(k), 0, LOCKOUT_MS) == 4 * k
    ensures AcceptedIn(NoSlots, Rounds(k), 0, LOCKOUT_MS) == k
  {
    AllAtOnce(k);
    if k > 0 {
      RoundsCount(k - 1);
      OneMoreRound(Rounds(k - 1));
    }
  }

  /** For every number of accepted passwords some logins reach the bound. */
  lemma BoundAttained(k: nat) returns (logins: seq<Login>)
    ensures Serialized(logins) && AcceptedIn(NoSlots, logins, 0, LOCKOUT_MS) == k
    ensures CountedIn(NoSlots, logins, 0, LOCKOUT_MS) == MAX_ATTEMPTS + 4 * k
  {
    var wrong := Login(0, 0, Wrong);
    RoundsCount(k);
    AllAtOnce(k);
    FourWrong(Rounds(k));
    Extends(FourMore(Rounds(k)), wrong, 0, LOCKOUT_MS);
    logins := FourMore(Rounds(k)) + [wrong];
    forall l | l in logins ensures l.checkedAt == l.recordedAt == 0 {
      assert l in Rounds(k) || l == wrong;
    }
  }

  /** Five counted failures bound all logins with so many accepted passwords in the interval. */
  ghost predicate FiveBounds(accepted: nat) {
    forall logins, a ::
      Serialized(logins) && AcceptedFrom(logins, a) == accepted ==> CountedFrom(logins, a) <= MAX_ATTEMPTS
  }

  function CountedFrom(logins: seq<Login>, a: int): nat {
    CountedIn(NoSlots, logins, a, a + LOCKOUT_MS)
  }

  function AcceptedFrom(logins: seq<Login>, a: int): nat {
    AcceptedIn(NoSlots, logins, a, a + LOCKOUT_MS)
  }

  /** The limit of five holds exactly while no password is accepted in the interval. */
  lemma FiveBoundsExactlyWhen(accepted: nat)
    ensures FiveBounds(accepted) <==> accepted == 0
  {
    if accepted == 0 {
      forall logins, a | Serialized(logins) && AcceptedFrom(logins, a) == accepted
        ensures CountedFrom(logins, a) <= MAX_ATTEMPTS
      {
        FailuresPerInterval([], logins, a);
      }
    } else {
      var logins := BoundAttained(accepted);
      assert AcceptedFrom(logins, 0) == accepted && CountedFrom(logins, 0) > MAX_ATTEMPTS;
    }
  }
}
