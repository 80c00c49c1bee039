/** What a scan of one week says about all time, and where it says less than it prints. */
module CronTheorems {
  import opened Wrappers
  import opened Cron

  lemma HoursLater(t: int, h: int)
    ensures (t + 60 * h) % 60 == t % 60 && (t + 60 * h) / 60 == t / 60 + h
  {
  }

  lemma HourOfDay(h: int, d: int)
    ensures (h + 24 * d) % 24 == h % 24
  {
  }

  lemma DaysLater(t: int, d: int)
    ensures (t + DAY * d) / DAY == t / DAY + d
  {
  }

  lemma WeekdayAfter(day: int, w: int)
    ensures (day + 7 * w + 1) % 7 == (day + 1) % 7
  {
  }

  /** Day, hour and minute of an instant are those of the calendar and the clock. */
  lemma ClockReads(t: int)
    ensures t == 1440 * DayOf(t) + 60 * Hours(t) + Minutes(t)
    ensures 0 <= Hours(t) < 24 && 0 <= Minutes(t) < 60
  {
    assert t / 1440 == t / 60 / 24;
  }

  /** The anchor is a Monday, 1; the days count on to Saturday, 6, and Sunday is 0. */
  lemma WeekdayNumbers(t: int)
    ensures 0 <= t < 1440 ==> Weekday(t) == 1
    ensures 0 <= Weekday(t) <= 6 && Weekday(t + 1440) == if Weekday(t) == 6 then 0 else Weekday(t) + 1
  {
    DaysLater(t, 1);
  }

  lemma WeeksLater(t: int, k: int)
    ensures Minutes(t + k * WEEK) == Minutes(t) && Hours(t + k * WEEK) == Hours(t)
    ensures Weekday(t + k * WEEK) == Weekday(t)
  {
    HoursLater(t, 168 * k);
    HourOfDay(t / 60, 7 * k);
    DaysLater(t, 7 * k);
    WeekdayAfter(DayOf(t), k);
    assert t + k * WEEK == t + 60 * (168 * k) == t + DAY * (7 * k);
  }

  /** Without dates an expression fires with a period of one week, whatever the calendar. */
  lemma FiresWeekly(cal: Calendar, cal': Calendar, schedule: string, t: int, k: int)
    requires EveryDate(schedule)
    ensures FiresAt(cal, schedule, t) <==> FiresAt(cal', schedule, t + k * WEEK)
  {
    hide MatchesPart, Minutes, Hours, Weekday;
    WeeksLater(t, k);
  }

  lemma {:induction false} FiringWeekly(cal: Calendar, cal': Calendar, schedules: seq<CronSchedule>, t: int, k: int)
    requires AllEveryDate(schedules)
    ensures Firing(cal, schedules, t) == Firing(cal', schedules, t + k * WEEK)
  {
    if schedules != [] {
      FiresWeekly(cal, cal', schedules[0].schedule, t, k);
      FiringWeekly(cal, cal', schedules[1..], t, k);
    }
  }

  /** No two entries of the list fire at t. */
  ghost predicate NoClash(cal: Calendar, schedules: seq<CronSchedule>, t: int)
    requires AllWellFormed(schedules)
  {
    forall a, b :: 0 <= a < b < |schedules| ==>
      !(FiresAt(cal, schedules[a].schedule, t) && FiresAt(cal, schedules[b].schedule, t))
  }

  ghost predicate NoneDue(cal: Calendar, schedules: seq<CronSchedule>, t: int)
    requires AllWellFormed(schedules)
  {
    forall a :: 0 <= a < |schedules| ==> !FiresAt(cal, schedules[a].schedule, t)
  }

  lemma NoneDueSplits(cal: Calendar, schedules: seq<CronSchedule>, t: int)
    requires schedules != [] && AllWellFormed(schedules)
    ensures AllWellFormed(schedules[1..])
    ensures NoneDue(cal, schedules, t) <==>
              !FiresAt(cal, schedules[0].schedule, t) && NoneDue(cal, schedules[1..], t)
  {
    hide FiresAt, WellFormed;
    assert forall a :: 0 <= a < |schedules[1..]| ==> schedules[1..][a] == schedules[a + 1];
    assert forall a :: 0 < a < |schedules| ==> schedules[a] == schedules[1..][a - 1];
  }

  lemma {:induction false} NoneFiring(cal: Calendar, schedules: seq<CronSchedule>, t: int)
    requires AllWellFormed(schedules)
    ensures Firing(cal, schedules, t) == [] <==> NoneDue(cal, schedules, t)
  {
    if schedules != [] {
      NoneDueSplits(cal, schedules, t);
      hide FiresAt, WellFormed, NoneDue;
      NoneFiring(cal, schedules[1..], t);
    }
  }

  lemma NoneFires(cal: Calendar, schedules: seq<CronSchedule>, t: int)
    requires AllWellFormed(schedules)
    ensures Firing(cal, schedules, t) == [] <==>
              forall a :: 0 <= a < |schedules| ==> !FiresAt(cal, schedules[a].schedule, t)
  {
    NoneFiring(cal, schedules, t);
    hide FiresAt, WellFormed, Firing;
  }

  lemma {:induction false} AtMostOneFires(cal: Calendar, schedules: seq<CronSchedule>, t: int)
    requires AllWellFormed(schedules)
    ensures |Firing(cal, schedules, t)| <= 1 <==> NoClash(cal, schedules, t)
  {
    if schedules != [] {
      var rest := schedules[1..];
      AtMostOneFires(cal, rest, t);
      NoneFires(cal, rest, t);
      assert forall a :: 0 <= a < |rest| ==> rest[a] == schedules[a + 1];
      if NoClash(cal, schedules, t) {
        assert NoClash(cal, rest, t);
      } else {
        var a, b :| 0 <= a < b < |schedules|
                    && FiresAt(cal, schedules[a].schedule, t) && FiresAt(cal, schedules[b].schedule, t);
        assert schedules[b] == rest[b - 1];
        if a > 0 { assert schedules[a] == rest[a - 1]; }
      }
    }
  }

  function InWeek(t: int): int {
    t % WEEK
  }

  /** What happens at t is what happened in the week of the scan. */
  lemma FiringInWeek(cal: Calendar, cal': Calendar, schedules: seq<CronSchedule>, t: int)
    requires AllEveryDate(schedules)
    ensures 0 <= InWeek(t) < WEEK && Firing(cal', schedules, t) == Firing(cal, schedules, InWeek(t))
  {
    assert t == InWeek(t) + t / WEEK * WEEK;
    FiringWeekly(cal, cal', schedules, InWeek(t), t / WEEK);
  }

  ghost predicate NeverClash(schedules: seq<CronSchedule>)
    requires AllWellFormed(schedules)
  {
    forall cal, t :: NoClash(cal, schedules, t)
  }

  lemma EmptyScanSuffices(cal: Calendar, schedules: seq<CronSchedule>, n: nat, cal': Calendar, t: int)
    requires AllEveryDate(schedules) && n >= WEEK && OverlapsBefore(cal, schedules, n) == []
    ensures NoClash(cal', schedules, t)
  {
    FiringInWeek(cal, cal', schedules, t);
    var m := InWeek(t);
    ListedExactlyWhen(cal, schedules, n, m);
    AtMostOneFires(cal', schedules, t);
  }

  /** The minute m of the window is listed exactly when several entries fire in it. */
  lemma ListedExactlyWhen(cal: Calendar, schedules: seq<CronSchedule>, n: nat, m: nat)
    requires AllWellFormed(schedules) && m < n
    ensures Overlap(m, Firing(cal, schedules, m)) in OverlapsBefore(cal, schedules, n) <==>
            |Firing(cal, schedules, m)| > 1
  {
    OverlapMinutes(cal, schedules, n);
  }

  lemma ListedClash(cal: Calendar, schedules: seq<CronSchedule>, n: nat)
    requires AllWellFormed(schedules) && OverlapsBefore(cal, schedules, n) != []
    ensures exists t :: 0 <= t < n && !NoClash(cal, schedules, t)
  {
    OverlapMinutes(cal, schedules, n);
    var o := OverlapsBefore(cal, schedules, n)[0];
    assert o in OverlapsBefore(cal, schedules, n);
    AtMostOneFires(cal, schedules, o.minute);
  }

  lemma EmptyScanIsSound(cal: Calendar, schedules: seq<CronSchedule>, n: nat)
    requires AllEveryDate(schedules) && n >= WEEK && OverlapsBefore(cal, schedules, n) == []
    ensures NeverClash(schedules)
  {
    forall cal', t ensures NoClash(cal', schedules, t) {
      EmptyScanSuffices(cal, schedules, n, cal', t);
    }
  }

  lemma ListedIsClash(cal: Calendar, schedules: seq<CronSchedule>, n: nat)
    requires AllWellFormed(schedules) && OverlapsBefore(cal, schedules, n) != []
    ensures !NeverClash(schedules)
  {
    ListedClash(cal, schedules, n);
  }

  /**
   * For expressions without dates a scan of at least a week is empty exactly when
   * no two entries ever share a minute, in any calendar.
   */
  lemma EmptyScanExactlyWhen(cal: Calendar, schedules: seq<CronSchedule>, windowDays: nat)
    requires AllEveryDate(schedules) && windowDays >= 7
    ensures OverlapsBefore(cal, schedules, windowDays * DAY) == [] <==> NeverClash(schedules)
  {
    hide NoClash, Firing, FiresAt;
    var n := windowDays * DAY;
    if OverlapsBefore(cal, schedules, n) == [] {
      EmptyScanIsSound(cal, schedules, n);
    } else {
      ListedIsClash(cal, schedules, n);
    }
  }

  // ----- dates as well: every calendar

  /** The calendar as it looks so many weeks on. */
  function Shift(cal: Calendar, k: int): Calendar {
    (day: int) => cal(day + 7 * k)
  }

  lemma FiresShifted(cal: Calendar, schedule: string, t: int, k: int)
    requires WellFormed(schedule)
    ensures FiresAt(Shift(cal, k), schedule, t) <==> FiresAt(cal, schedule, t + k * WEEK)
  {
    hide FieldsFire, Minutes, Hours, Weekday;
    WeeksLater(t, k);
    DaysLater(t, 7 * k);
    assert t + k * WEEK == t + DAY * (7 * k);
  }

  lemma {:induction false} FiringShifted(cal: Calendar, schedules: seq<CronSchedule>, t: int, k: int)
    requires AllWellFormed(schedules)
    ensures Firing(Shift(cal, k), schedules, t) == Firing(cal, schedules, t + k * WEEK)
  {
    hide FiresAt, WellFormed;
    if schedules != [] {
      FiresShifted(cal, schedules[0].schedule, t, k);
      FiringShifted(cal, schedules[1..], t, k);
    }
  }

  /** The scan of n minutes finds nothing, whatever the calendar of the anchored week. */
  ghost predicate AlwaysEmpty(schedules: seq<CronSchedule>, n: nat)
    requires AllWellFormed(schedules)
  {
    forall cal :: OverlapsBefore(cal, schedules, n) == []
  }

  lemma AlwaysEmptySuffices(schedules: seq<CronSchedule>, n: nat, cal: Calendar, t: int)
    requires AllWellFormed(schedules) && n >= WEEK && AlwaysEmpty(schedules, n)
    ensures NoClash(cal, schedules, t)
  {
    hide FiresAt, WellFormed, NoClash;
    var m, k := InWeek(t), t / WEEK;
    assert t == m + k * WEEK && 0 <= m < WEEK;
    FiringShifted(cal, schedules, m, k);
    ListedExactlyWhen(Shift(cal, k), schedules, n, m);
    assert OverlapsBefore(Shift(cal, k), schedules, n) == [];
    AtMostOneFires(cal, schedules, t);
  }

  /**
   * For any expressions at all, with dates or without, a scan of at least a week
   * is empty in every calendar exactly when no two entries ever share a minute.
   */
  lemma AlwaysEmptyExactlyWhen(schedules: seq<CronSchedule>, windowDays: nat)
    requires AllWellFormed(schedules) && windowDays >= 7
    ensures AlwaysEmpty(schedules, windowDays * DAY) <==> NeverClash(schedules)
  {
    hide NoClash, Firing, FiresAt, WellFormed;
    var n := windowDays * DAY;
    if AlwaysEmpty(schedules, n) {
      forall cal, t ensures NoClash(cal, schedules, t) {
        AlwaysEmptySuffices(schedules, n, cal, t);
      }
    } else {
      var cal :| OverlapsBefore(cal, schedules, n) != [];
      ListedIsClash(cal, schedules, n);
    }
  }

  // ----- the closest approach

  ghost predicate Fires(cal: Calendar, schedules: seq<CronSchedule>, t: int)
    requires AllWellFormed(schedules)
  {
    Firing(cal, schedules, t) != []
  }

  /** The least distance of two distinct firing minutes in all time. */
  ghost predicate IsClosestApproach(cal: Calendar, schedules: seq<CronSchedule>, g: int)
    requires AllWellFormed(schedules)
  {
    && (forall t, u :: t < u && Fires(cal, schedules, t) && Fires(cal, schedules, u) ==> g <= u - t)
    && (exists t, u :: t < u && Fires(cal, schedules, t) && Fires(cal, schedules, u) && u - t == g)
  }

  /** Distinct minutes of one week, in order. */
  ghost predicate OfOneWeek(r: seq<int>) {
    r != [] && Increasing(r) && 0 <= r[0] && r[|r| - 1] < WEEK
  }

  lemma ScanOfOneWeek(cal: Calendar, schedules: seq<CronSchedule>)
    requires AllWellFormed(schedules) && FiringBefore(cal, schedules, WEEK) != []
    ensures OfOneWeek(FiringBefore(cal, schedules, WEEK))
  {
    InstantsIncrease(Active(cal, schedules), WEEK);
    FiringMembers(cal, schedules, WEEK, FiringBefore(cal, schedules, WEEK)[0]);
  }

  /** From the last firing of one week to the first of the next. */
  function Wrap(r: seq<int>): int
    requires r != []
  {
    r[0] + WEEK - r[|r| - 1]
  }

  /** The firing minutes of all time are the scanned ones, week by week. */
  lemma FiresExactlyWhen(cal: Calendar, schedules: seq<CronSchedule>, t: int)
    requires AllEveryDate(schedules)
    ensures Fires(cal, schedules, t) <==> InWeek(t) in FiringBefore(cal, schedules, WEEK)
  {
    FiringInWeek(cal, cal, schedules, t);
    FiringMembers(cal, schedules, WEEK, InWeek(t));
  }

  /** Minute i of the scanned week, k weeks on. */
  function At(r: seq<int>, i: nat, k: int): int
    requires i < |r|
  {
    r[i] + k * WEEK
  }

  lemma AtInWeek(r: seq<int>, i: nat, k: int)
    requires OfOneWeek(r) && i < |r|
    ensures InWeek(At(r, i, k)) == r[i]
  {
    assert 0 <= r[i] < WEEK by {
      if i > 0 { assert r[0] < r[i]; }
      if i < |r| - 1 { assert r[i] < r[|r| - 1]; }
    }
  }

  lemma FiresAtIndex(cal: Calendar, schedules: seq<CronSchedule>, i: nat, k: int)
    requires AllEveryDate(schedules) && i < |FiringBefore(cal, schedules, WEEK)|
    ensures Fires(cal, schedules, At(FiringBefore(cal, schedules, WEEK), i, k))
  {
    var r := FiringBefore(cal, schedules, WEEK);
    ScanOfOneWeek(cal, schedules);
    AtInWeek(r, i, k);
    FiresExactlyWhen(cal, schedules, At(r, i, k));
  }

  lemma WithinWeek(r: seq<int>, gap: Option<int>, i: nat, j: nat)
    requires Increasing(r) && IsMinDistance(r, gap) && i < |r| && j < |r| && r[i] < r[j]
    ensures gap.Some? && gap.value <= r[j] - r[i]
  {
    assert !(j < i) by {
      assert forall a, b :: 0 <= a < b < |r| ==> r[a] < r[b];
    }
  }

  lemma AcrossWeeks(r: seq<int>, i: nat, j: nat)
    requires OfOneWeek(r) && i < |r| && j < |r|
    ensures Wrap(r) <= r[j] + WEEK - r[i]
  {
    assert j > 0 ==> r[0] < r[j];
    assert i < |r| - 1 ==> r[i] < r[|r| - 1];
  }

  lemma WeeksBetween(t: int, u: int)
    requires t < u
    ensures u - t == InWeek(u) - InWeek(t) || u - t >= InWeek(u) + WEEK - InWeek(t)
  {
    var p, q := t / WEEK, u / WEEK;
    assert t == p * WEEK + InWeek(t) && u == q * WEEK + InWeek(u);
    if p != q { assert q >= p + 1; }
  }

  lemma NeverCloser(cal: Calendar, schedules: seq<CronSchedule>, gap: Option<int>, t: int, u: int)
    requires AllEveryDate(schedules) && FiringBefore(cal, schedules, WEEK) != []
    requires IsMinDistance(FiringBefore(cal, schedules, WEEK), gap)
    requires t < u && Fires(cal, schedules, t) && Fires(cal, schedules, u)
    ensures u - t >= Wrap(FiringBefore(cal, schedules, WEEK)) || (gap.Some? && u - t >= gap.value)
  {
    ScanOfOneWeek(cal, schedules);
    FiresExactlyWhen(cal, schedules, t);
    FiresExactlyWhen(cal, schedules, u);
    NoneCloser(FiringBefore(cal, schedules, WEEK), gap, t, u);
  }

  lemma NoneCloser(r: seq<int>, gap: Option<int>, t: int, u: int)
    requires OfOneWeek(r) && IsMinDistance(r, gap) && InWeek(t) in r && InWeek(u) in r && t < u
    ensures u - t >= Wrap(r) || (gap.Some? && u - t >= gap.value)
  {
    var i: nat :| i < |r| && r[i] == InWeek(t);
    var j: nat :| j < |r| && r[j] == InWeek(u);
    WeeksBetween(t, u);
    AcrossWeeks(r, i, j);
    if u - t == InWeek(u) - InWeek(t) {
      WithinWeek(r, gap, i, j);
    }
  }

  /** The step over the end of the week does occur. */
  lemma WrapOccurs(cal: Calendar, schedules: seq<CronSchedule>) returns (t: int, u: int)
    requires AllEveryDate(schedules) && FiringBefore(cal, schedules, WEEK) != []
    ensures t < u && Fires(cal, schedules, t) && Fires(cal, schedules, u)
    ensures u - t == Wrap(FiringBefore(cal, schedules, WEEK))
  {
    hide FiringBefore, Fires, WellFormed;
    var r := FiringBefore(cal, schedules, WEEK);
    ScanOfOneWeek(cal, schedules);
    FiresAtIndex(cal, schedules, |r| - 1, 0);
    FiresAtIndex(cal, schedules, 0, 1);
    t, u := At(r, |r| - 1, 0), At(r, 0, 1);
  }

  lemma GapOccurs(cal: Calendar, schedules: seq<CronSchedule>, g: int) returns (t: int, u: int)
    requires AllEveryDate(schedules) && IsMinDistance(FiringBefore(cal, schedules, WEEK), Some(g))
    ensures t < u && Fires(cal, schedules, t) && Fires(cal, schedules, u) && u - t == g
  {
    var r := FiringBefore(cal, schedules, WEEK);
    var i, j :| 0 <= i < j < |r| && r[j] - r[i] == g;
    ScanOfOneWeek(cal, schedules);
    FiresAtIndex(cal, schedules, i, 0);
    FiresAtIndex(cal, schedules, j, 0);
    t, u := At(r, i, 0), At(r, j, 0);
  }

  /**
   * The closest approach over all time is the smaller of the scan's gap and the
   * step over the end of the week.
   */
  lemma ClosestApproach(cal: Calendar, schedules: seq<CronSchedule>, gap: Option<int>)
    requires AllEveryDate(schedules) && FiringBefore(cal, schedules, WEEK) != []
    requires IsMinDistance(FiringBefore(cal, schedules, WEEK), gap)
    ensures var wrap := Wrap(FiringBefore(cal, schedules, WEEK));
            IsClosestApproach(cal, schedules, if gap.Some? && gap.value <= wrap then gap.value else wrap)
  {
    var wrap := Wrap(FiringBefore(cal, schedules, WEEK));
    forall t, u | t < u && Fires(cal, schedules, t) && Fires(cal, schedules, u)
      ensures u - t >= wrap || (gap.Some? && u - t >= gap.value)
    {
      NeverCloser(cal, schedules, gap, t, u);
    }
    if gap.Some? && gap.value <= wrap {
      var t, u := GapOccurs(cal, schedules, gap.value);
    } else {
      var t, u := WrapOccurs(cal, schedules);
    }
  }

  lemma ClosestIsUnique(cal: Calendar, schedules: seq<CronSchedule>, g: int, h: int)
    requires AllWellFormed(schedules)
    requires IsClosestApproach(cal, schedules, g) && IsClosestApproach(cal, schedules, h)
    ensures g == h
  {
  }

  /** The printed gap is the closest approach exactly when no nearer pair straddles the week's end. */
  lemma PrintedGapExactlyWhen(cal: Calendar, schedules: seq<CronSchedule>, gap: int)
    requires AllEveryDate(schedules) && FiringBefore(cal, schedules, WEEK) != []
    requires IsMinDistance(FiringBefore(cal, schedules, WEEK), Some(gap))
    ensures IsClosestApproach(cal, schedules, gap) <==> gap <= Wrap(FiringBefore(cal, schedules, WEEK))
  {
    var wrap := Wrap(FiringBefore(cal, schedules, WEEK));
    ClosestApproach(cal, schedules, Some(gap));
    if wrap < gap && IsClosestApproach(cal, schedules, gap) {
      ClosestIsUnique(cal, schedules, gap, wrap);
    }
  }
}
