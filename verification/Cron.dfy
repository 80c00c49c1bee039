/**
 * Cron evaluation and the overlap scan of scripts/verify-job-overlaps.ts.
 *
 * An instant is a whole number of minutes from the scan's anchor, Monday
 * 2024-01-01 00:00 UTC, and may be negative.  Day of month and month come from a
 * calendar that maps days from the anchor; the theorems hold for every calendar.
 */
module Cron {
  import opened Wrappers
  import opened Text

  const DAY := 24 * 60
  const WEEK := 7 * DAY

  /** Day of month and month of the day that lies so many days from the anchor. */
  type Calendar = int -> (int, int)

  datatype CronSchedule = CronSchedule(name: string, schedule: string)

  datatype Overlap = Overlap(minute: int, jobs: seq<string>)

  datatype OverlapResult = OverlapResult(
    overlaps: seq<Overlap>,
    minGapMinutes: Option<int>,
    checkedJobs: nat,
    windowDays: nat)

  // ----- one field

  /** NaN compares false with everything, and so does a remainder by NaN or zero. */
  predicate DividesOffset(offset: int, step: Option<int>) {
    step.Some? && step.value != 0 && offset % (if step.value < 0 then -step.value else step.value) == 0
  }

  predicate InRange(value: int, bounds: seq<string>)
    requires |bounds| >= 2
  {
    var start, end := ParseInt(bounds[0]), ParseInt(bounds[1]);
    start.Some? && end.Some? && start.value <= value <= end.value
  }

  /** A field without a comma. */
  predicate MatchesPart(value: int, expr: string) {
    if expr == "*" then true
    else if '/' in expr then
      SplitTwice(expr, '/');
      var base, step := Split(expr, '/')[0], ParseInt(Split(expr, '/')[1]);
      if base == "*" then DividesOffset(value, step)
      else if '-' in base then
        SplitTwice(base, '-');
        var bounds := Split(base, '-');
        InRange(value, bounds) && DividesOffset(value - ParseInt(bounds[0]).value, step)
      else ParseInt(base) == Some(value)
    else if '-' in expr then
      SplitTwice(expr, '-');
      InRange(value, Split(expr, '-'))
    else ParseInt(expr) == Some(value)
  }

  predicate MatchesCronField(value: int, expr: string) {
    if expr == "*" then true
    else if ',' in expr then exists part :: part in Split(expr, ',') && MatchesPart(value, part)
    else MatchesPart(value, expr)
  }

  // ----- a whole expression

  function Minutes(t: int): int { t % 60 }
  function Hours(t: int): int { t / 60 % 24 }
  function DayOf(t: int): int { t / DAY }
  function Weekday(t: int): int { (DayOf(t) + 1) % 7 }

  predicate WellFormed(schedule: string) {
    |Words(schedule)| == 5
  }

  /** The Vixie day rule: two restricted day fields are alternatives; Sunday is 0 or 7. */
  predicate FieldsFire(f: seq<string>, date: int, month: int, minutes: int, hours: int, weekday: int)
    requires |f| == 5
  {
    var domMatch := MatchesCronField(date, f[2]);
    var dowMatch := MatchesCronField(weekday, f[4]) || (weekday == 0 && MatchesCronField(7, f[4]));
    var dayMatch := if f[2] != "*" && f[4] != "*" then domMatch || dowMatch else domMatch && dowMatch;
    MatchesCronField(minutes, f[0]) && MatchesCronField(hours, f[1]) && MatchesCronField(month, f[3]) && dayMatch
  }

  predicate FiresAt(cal: Calendar, schedule: string, t: int)
    requires WellFormed(schedule)
  {
    var (date, month) := cal(DayOf(t));
    FieldsFire(Words(schedule), date, month, Minutes(t), Hours(t), Weekday(t))
  }

  /** Day of month and month are left open. */
  predicate EveryDate(schedule: string) {
    WellFormed(schedule) && Words(schedule)[2] == "*" && Words(schedule)[3] == "*"
  }

  predicate AllWellFormed(schedules: seq<CronSchedule>) {
    forall i :: 0 <= i < |schedules| ==> WellFormed(schedules[i].schedule)
  }

  predicate AllEveryDate(schedules: seq<CronSchedule>) {
    forall i :: 0 <= i < |schedules| ==> EveryDate(schedules[i].schedule)
  }

  // ----- the scan

  /** The names of the entries that fire at t, in list order. */
  function Firing(cal: Calendar, schedules: seq<CronSchedule>, t: int): (names: seq<string>)
    requires AllWellFormed(schedules)
  {
    if schedules == [] then []
    else
      (if FiresAt(cal, schedules[0].schedule, t) then [schedules[0].name] else [])
      + Firing(cal, schedules[1..], t)
  }

  /** The instants among the first n for which several names are listed. */
  function Shared(names: int -> seq<string>, n: nat): seq<Overlap> {
    if n == 0 then []
    else Shared(names, n - 1) + (if |names(n - 1)| > 1 then [Overlap(n - 1, names(n - 1))] else [])
  }

  function FiringAt(cal: Calendar, schedules: seq<CronSchedule>): int -> seq<string>
    requires AllWellFormed(schedules)
  {
    (t: int) => Firing(cal, schedules, t)
  }

  /** The overlaps among the first n minutes of the scan. */
  function OverlapsBefore(cal: Calendar, schedules: seq<CronSchedule>, n: nat): seq<Overlap>
    requires AllWellFormed(schedules)
  {
    Shared(FiringAt(cal, schedules), n)
  }

  /** The instants among the first n at which something happens. */
  function Instants(happens: int -> bool, n: nat): seq<int> {
    if n == 0 then [] else Instants(happens, n - 1) + (if happens(n - 1) then [n - 1] else [])
  }

  function Active(cal: Calendar, schedules: seq<CronSchedule>): int -> bool
    requires AllWellFormed(schedules)
  {
    (t: int) => Firing(cal, schedules, t) != []
  }

  /** The minutes among the first n in which anything fires. */
  function FiringBefore(cal: Calendar, schedules: seq<CronSchedule>, n: nat): seq<int>
    requires AllWellFormed(schedules)
  {
    Instants(Active(cal, schedules), n)
  }

  ghost predicate Increasing(r: seq<int>) {
    forall i, j :: 0 <= i < j < |r| ==> r[i] < r[j]
  }

  lemma {:induction false} InstantsIncrease(happens: int -> bool, n: nat)
    ensures Increasing(Instants(happens, n))
    ensures forall i :: 0 <= i < |Instants(happens, n)| ==> Instants(happens, n)[i] < n
  {
    if n > 0 {
      InstantsIncrease(happens, n - 1);
    }
  }

  lemma {:induction false} InstantsMembers(happens: int -> bool, n: nat, t: int)
    ensures t in Instants(happens, n) <==> 0 <= t < n && happens(t)
  {
    if n > 0 {
      InstantsMembers(happens, n - 1, t);
    }
  }

  lemma FiringMembers(cal: Calendar, schedules: seq<CronSchedule>, n: nat, t: int)
    requires AllWellFormed(schedules)
    ensures t in FiringBefore(cal, schedules, n) <==> 0 <= t < n && Firing(cal, schedules, t) != []
  {
    InstantsMembers(Active(cal, schedules), n, t);
  }

  lemma {:induction false} SharedMinutes(names: int -> seq<string>, n: nat)
    ensures forall o :: o in Shared(names, n) <==>
              0 <= o.minute < n && |names(o.minute)| > 1 && o.jobs == names(o.minute)
  {
    if n > 0 {
      SharedMinutes(names, n - 1);
    }
  }

  /** Each minute once, and in order. */
  ghost predicate Chronological(overlaps: seq<Overlap>) {
    forall i, j :: 0 <= i < j < |overlaps| ==> overlaps[i].minute < overlaps[j].minute
  }

  lemma {:induction false} SharedIncreases(names: int -> seq<string>, n: nat)
    ensures Chronological(Shared(names, n))
    ensures forall i :: 0 <= i < |Shared(names, n)| ==> Shared(names, n)[i].minute < n
  {
    if n > 0 {
      SharedIncreases(names, n - 1);
    }
  }

  lemma OverlapMinutes(cal: Calendar, schedules: seq<CronSchedule>, n: nat)
    requires AllWellFormed(schedules)
    ensures forall o :: o in OverlapsBefore(cal, schedules, n) <==>
              0 <= o.minute < n && |Firing(cal, schedules, o.minute)| > 1 && o.jobs == Firing(cal, schedules, o.minute)
  {
    SharedMinutes(FiringAt(cal, schedules), n);
  }

  /** The least distance of two distinct members, None when there are fewer than two. */
  ghost predicate IsMinDistance(r: seq<int>, gap: Option<int>) {
    match gap
    case None => |r| < 2
    case Some(g) =>
      && (exists i, j :: 0 <= i < j < |r| && r[j] - r[i] == g)
      && (forall i, j :: 0 <= i < j < |r| ==> g <= r[j] - r[i])
  }

  function Gap(r: seq<int>, k: int): int
    requires 0 < k < |r|
  {
    r[k] - r[k - 1]
  }

  lemma ConsecutiveSuffices(r: seq<int>, g: int, i: nat, j: nat)
    requires Increasing(r) && i < j < |r|
    requires forall k :: 0 < k < |r| ==> g <= Gap(r, k)
    ensures g <= r[j] - r[i]
  {
    assert g <= Gap(r, j);
    assert i < j - 1 ==> r[i] < r[j - 1];
  }

  method FindScheduleOverlaps(cal: Calendar, schedules: seq<CronSchedule>, windowDays: nat)
    returns (result: Option<OverlapResult>)
    ensures result.None? <==> windowDays > 0 && !AllWellFormed(schedules)
    ensures result.Some? ==>
              && result.value.checkedJobs == |schedules| && result.value.windowDays == windowDays
              && (windowDays == 0 ==> result.value.overlaps == [] && result.value.minGapMinutes == None)
              && (windowDays > 0 ==>
                    && result.value.overlaps == OverlapsBefore(cal, schedules, windowDays * DAY)
                    && Chronological(result.value.overlaps)
                    && (forall o :: o in result.value.overlaps <==>
                          && 0 <= o.minute < windowDays * DAY
                          && |Firing(cal, schedules, o.minute)| > 1
                          && o.jobs == Firing(cal, schedules, o.minute))
                    && IsMinDistance(FiringBefore(cal, schedules, windowDays * DAY), result.value.minGapMinutes))
  {
    hide FiresAt;
    if windowDays > 0 && !AllWellFormed(schedules) {
      return None;
    }
    var totalMinutes := windowDays * DAY;
    var overlaps: seq<Overlap> := [];
    var firingInstants: seq<int> := [];
    var i := 0;
    while i < totalMinutes
      invariant 0 <= i <= totalMinutes && (windowDays == 0 ==> overlaps == [] && firingInstants == [])
      invariant windowDays > 0 ==>
                  && overlaps == OverlapsBefore(cal, schedules, i)
                  && firingInstants == FiringBefore(cal, schedules, i)
    {
      var firing := Firing(cal, schedules, i);
      if |firing| > 0 {
        firingInstants := firingInstants + [i];
        if |firing| > 1 {
          overlaps := overlaps + [Overlap(i, firing)];
        }
      }
      i := i + 1;
    }
    var minGapMinutes := MinConsecutiveGap(firingInstants);
    if windowDays > 0 {
      OverlapMinutes(cal, schedules, totalMinutes);
      SharedIncreases(FiringAt(cal, schedules), totalMinutes);
      InstantsIncrease(Active(cal, schedules), totalMinutes);
    }
    return Some(OverlapResult(overlaps, minGapMinutes, |schedules|, windowDays));
  }

  /** Looks at neighbours only. */
  method MinConsecutiveGap(firingInstants: seq<int>) returns (minGapMinutes: Option<int>)
    ensures Increasing(firingInstants) ==> IsMinDistance(firingInstants, minGapMinutes)
  {
    minGapMinutes := None;
    var i := 1;
    ghost var at := 0;
    while i < |firingInstants|
      invariant 1 <= i && (|firingInstants| >= 1 ==> i <= |firingInstants|)
      invariant minGapMinutes.None? <==> i == 1
      invariant minGapMinutes.Some? ==>
                  && 0 < at < i && at < |firingInstants| && Gap(firingInstants, at) == minGapMinutes.value
                  && (forall k :: 0 < k < i && k < |firingInstants| ==> minGapMinutes.value <= Gap(firingInstants, k))
    {
      var gap := firingInstants[i] - firingInstants[i - 1];
      assert gap == Gap(firingInstants, i);
      if minGapMinutes.None? || gap < minGapMinutes.value {
        minGapMinutes, at := Some(gap), i;
      }
      i := i + 1;
    }
    if Increasing(firingInstants) && minGapMinutes.Some? {
      assert 0 <= at - 1 < at < |firingInstants| && firingInstants[at] - firingInstants[at - 1] == minGapMinutes.value;
      forall a, b | 0 <= a < b < |firingInstants| ensures minGapMinutes.value <= firingInstants[b] - firingInstants[a] {
        ConsecutiveSuffices(firingInstants, minGapMinutes.value, a, b);
      }
    }
  }
}
