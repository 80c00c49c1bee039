/**
 * The printed line "Closest approach between any two jobs".  The scan measures
 * firing minutes; this module says when its gap is a distance of two jobs.
 */
module CronApproach {
  import opened Wrappers
  import opened Cron
  import opened CronTheorems

  /** Two different entries, of which one fires at t and the other at u. */
  ghost predicate TwoJobs(cal: Calendar, schedules: seq<CronSchedule>, t: int, u: int)
    requires AllWellFormed(schedules)
  {
    exists a, b :: 0 <= a < |schedules| && 0 <= b < |schedules| && a != b
                   && FiresAt(cal, schedules[a].schedule, t) && FiresAt(cal, schedules[b].schedule, u)
  }

  lemma TwoJobsFire(cal: Calendar, schedules: seq<CronSchedule>, t: int, u: int)
    requires AllWellFormed(schedules) && TwoJobs(cal, schedules, t, u)
    ensures Fires(cal, schedules, t) && Fires(cal, schedules, u)
  {
    hide FiresAt, WellFormed;
    NoneFires(cal, schedules, t);
    NoneFires(cal, schedules, u);
  }

  // ----- in the scanned window

  /** Some two jobs fire g minutes apart within the first n. */
  ghost predicate JobsApart(cal: Calendar, schedules: seq<CronSchedule>, n: nat, g: int)
    requires AllWellFormed(schedules)
  {
    exists t, u :: 0 <= t < u < n && u - t == g && TwoJobs(cal, schedules, t, u)
  }

  /** The least distance of two jobs that fire at different minutes among the first n. */
  ghost predicate IsLeastOfJobs(cal: Calendar, schedules: seq<CronSchedule>, n: nat, g: int)
    requires AllWellFormed(schedules)
  {
    && JobsApart(cal, schedules, n, g)
    && (forall t, u :: 0 <= t < u < n && TwoJobs(cal, schedules, t, u) ==> g <= u - t)
  }

  lemma InWindow(cal: Calendar, schedules: seq<CronSchedule>, n: nat, t: int, u: int)
    requires AllWellFormed(schedules) && 0 <= t < u < n && TwoJobs(cal, schedules, t, u)
    ensures t in FiringBefore(cal, schedules, n) && u in FiringBefore(cal, schedules, n)
  {
    hide TwoJobs;
    TwoJobsFire(cal, schedules, t, u);
    FiringMembers(cal, schedules, n, t);
    FiringMembers(cal, schedules, n, u);
  }

  lemma AtMost(r: seq<int>, gap: Option<int>, x: int, y: int)
    requires Increasing(r) && IsMinDistance(r, gap) && x in r && y in r && x < y
    ensures gap.Some? && gap.value <= y - x
  {
    var i: nat :| i < |r| && r[i] == x;
    var j: nat :| j < |r| && r[j] == y;
    WithinWeek(r, gap, i, j);
  }

  lemma NoJobsNearer(cal: Calendar, schedules: seq<CronSchedule>, n: nat, gap: Option<int>, t: int, u: int)
    requires AllWellFormed(schedules) && IsMinDistance(FiringBefore(cal, schedules, n), gap)
    requires 0 <= t < u < n && TwoJobs(cal, schedules, t, u)
    ensures gap.Some? && gap.value <= u - t
  {
    hide TwoJobs, IsMinDistance, FiringBefore;
    InWindow(cal, schedules, n, t, u);
    InstantsIncrease(Active(cal, schedules), n);
    FiringIncreases(cal, schedules, n);
    AtMost(FiringBefore(cal, schedules, n), gap, t, u);
  }

  lemma FiringIncreases(cal: Calendar, schedules: seq<CronSchedule>, n: nat)
    requires AllWellFormed(schedules)
    ensures Increasing(FiringBefore(cal, schedules, n))
  {
    InstantsIncrease(Active(cal, schedules), n);
  }

  /** The printed gap is the least distance of two jobs exactly when some two jobs are that far apart. */
  lemma PrintedIsOfJobsExactlyWhen(cal: Calendar, schedules: seq<CronSchedule>, n: nat, g: int)
    requires AllWellFormed(schedules) && IsMinDistance(FiringBefore(cal, schedules, n), Some(g))
    ensures IsLeastOfJobs(cal, schedules, n, g) <==> JobsApart(cal, schedules, n, g)
  {
    hide TwoJobs, IsMinDistance, FiringBefore;
    forall t, u | 0 <= t < u < n && TwoJobs(cal, schedules, t, u) ensures g <= u - t {
      NoJobsNearer(cal, schedules, n, Some(g), t, u);
    }
  }

  /** Two jobs fire together in the window exactly when the scan lists an overlap. */
  lemma TogetherExactlyWhen(cal: Calendar, schedules: seq<CronSchedule>, n: nat)
    requires AllWellFormed(schedules)
    ensures OverlapsBefore(cal, schedules, n) != [] <==>
              exists t :: 0 <= t < n && TwoJobs(cal, schedules, t, t)
  {
    if OverlapsBefore(cal, schedules, n) != [] {
      ListedClash(cal, schedules, n);
      var t :| 0 <= t < n && !NoClash(cal, schedules, t);
      ClashIsTwoJobs(cal, schedules, t);
    }
    if t :| 0 <= t < n && TwoJobs(cal, schedules, t, t) {
      ClashIsTwoJobs(cal, schedules, t);
      AtMostOneFires(cal, schedules, t);
      ListedExactlyWhen(cal, schedules, n, t);
    }
  }

  lemma ClashIsTwoJobs(cal: Calendar, schedules: seq<CronSchedule>, t: int)
    requires AllWellFormed(schedules)
    ensures NoClash(cal, schedules, t) <==> !TwoJobs(cal, schedules, t, t)
  {
    hide FiresAt, WellFormed;
  }

  // ----- told from the names that the scan lists

  ghost predicate DistinctNames(schedules: seq<CronSchedule>) {
    forall a, b :: 0 <= a < b < |schedules| ==> schedules[a].name != schedules[b].name
  }

  /** At both minutes one and the same job fires, and no other. */
  predicate SameLoneJob(at: seq<string>, later: seq<string>) {
    |at| == 1 && later == at
  }

  lemma {:induction false} FiringNames(cal: Calendar, schedules: seq<CronSchedule>, t: int, name: string)
    requires AllWellFormed(schedules)
    ensures name in Firing(cal, schedules, t) <==>
              exists a :: 0 <= a < |schedules| && schedules[a].name == name && FiresAt(cal, schedules[a].schedule, t)
  {
    hide FiresAt, WellFormed;
    if schedules != [] {
      var rest := schedules[1..];
      FiringNames(cal, rest, t, name);
      if a :| 0 <= a < |rest| && rest[a].name == name && FiresAt(cal, rest[a].schedule, t) {
        assert schedules[a + 1] == rest[a];
      }
      if a :| 0 <= a < |schedules| && schedules[a].name == name && FiresAt(cal, schedules[a].schedule, t) {
        if a > 0 { assert rest[a - 1] == schedules[a]; }
      }
    }
  }

  lemma LoneJobIsOne(cal: Calendar, schedules: seq<CronSchedule>, t: int, u: int)
    requires AllWellFormed(schedules) && DistinctNames(schedules) && TwoJobs(cal, schedules, t, u)
    ensures !SameLoneJob(Firing(cal, schedules, t), Firing(cal, schedules, u))
  {
    hide FiresAt, WellFormed;
    var a, b :| 0 <= a < |schedules| && 0 <= b < |schedules| && a != b
                && FiresAt(cal, schedules[a].schedule, t) && FiresAt(cal, schedules[b].schedule, u);
    FiringNames(cal, schedules, t, schedules[a].name);
    FiringNames(cal, schedules, u, schedules[b].name);
  }

  lemma OneJobIsLone(cal: Calendar, schedules: seq<CronSchedule>, t: int, u: int)
    requires AllWellFormed(schedules) && !TwoJobs(cal, schedules, t, u)
    requires Fires(cal, schedules, t) && Fires(cal, schedules, u)
    ensures SameLoneJob(Firing(cal, schedules, t), Firing(cal, schedules, u))
  {
    hide FiresAt, WellFormed;
    NoneFires(cal, schedules, t);
    NoneFires(cal, schedules, u);
    var b :| 0 <= b < |schedules| && FiresAt(cal, schedules[b].schedule, u);
    var a :| 0 <= a < |schedules| && FiresAt(cal, schedules[a].schedule, t);
    assert a == b;
    assert NoClash(cal, schedules, t) && NoClash(cal, schedules, u);
    AtMostOneFires(cal, schedules, t);
    AtMostOneFires(cal, schedules, u);
    FiringNames(cal, schedules, t, schedules[a].name);
    FiringNames(cal, schedules, u, schedules[a].name);
  }

  /** With distinct names the lists of names at two firing minutes tell whether two jobs are involved. */
  lemma TwoJobsExactlyWhen(cal: Calendar, schedules: seq<CronSchedule>, t: int, u: int)
    requires AllWellFormed(schedules) && DistinctNames(schedules)
    requires Fires(cal, schedules, t) && Fires(cal, schedules, u)
    ensures TwoJobs(cal, schedules, t, u) <==>
              !SameLoneJob(Firing(cal, schedules, t), Firing(cal, schedules, u))
  {
    hide TwoJobs, FiresAt;
    if TwoJobs(cal, schedules, t, u) {
      LoneJobIsOne(cal, schedules, t, u);
    } else {
      OneJobIsLone(cal, schedules, t, u);
    }
  }

  /** Neighbour k of the firing minutes is g minutes behind the one before, and another job has a part in it. */
  ghost predicate NeighbourJobs(cal: Calendar, schedules: seq<CronSchedule>, r: seq<int>, k: int, g: int)
    requires AllWellFormed(schedules) && 0 < k < |r|
  {
    Gap(r, k) == g && !SameLoneJob(Firing(cal, schedules, r[k - 1]), Firing(cal, schedules, r[k]))
  }

  lemma InOrder(r: seq<int>, k: nat, i: nat)
    requires Increasing(r) && i < |r| && k < |r|
    ensures r[i] < r[k] ==> i < k
  {
    assert k < i ==> r[k] < r[i];
  }

  lemma SkippedIsFarther(r: seq<int>, g: int, i: nat, k: nat)
    requires Increasing(r) && IsMinDistance(r, Some(g)) && i < |r| && k < |r|
    ensures i < k - 1 ==> g < r[k] - r[i]
  {
    if i < k - 1 {
      assert g <= r[k - 1] - r[i];
      assert r[k - 1] < r[k];
    }
  }

  lemma NearestAreNeighbours(r: seq<int>, g: int, x: int, y: int) returns (k: int)
    requires Increasing(r) && IsMinDistance(r, Some(g)) && x in r && y in r && x < y && y - x == g
    ensures 0 < k < |r| && r[k - 1] == x && r[k] == y
  {
    var i: nat :| i < |r| && r[i] == x;
    k :| 0 <= k < |r| && r[k] == y;
    InOrder(r, k, i);
    SkippedIsFarther(r, g, i, k);
  }

  /**
   * The gap is a distance of two jobs exactly when two neighbours of the scan are
   * that far apart without being one job firing twice; the scan has what tells it.
   */
  lemma JobsApartExactlyWhen(cal: Calendar, schedules: seq<CronSchedule>, n: nat, g: int)
    requires AllWellFormed(schedules) && DistinctNames(schedules)
    requires IsMinDistance(FiringBefore(cal, schedules, n), Some(g))
    ensures var r := FiringBefore(cal, schedules, n);
            JobsApart(cal, schedules, n, g) <==>
              exists k :: 0 < k < |r| && NeighbourJobs(cal, schedules, r, k, g)
  {
    hide TwoJobs, IsMinDistance, FiringBefore, SameLoneJob, DistinctNames;
    var r := FiringBefore(cal, schedules, n);
    FiringIncreases(cal, schedules, n);
    if t, u :| 0 <= t < u < n && u - t == g && TwoJobs(cal, schedules, t, u) {
      InWindow(cal, schedules, n, t, u);
      var k := NearestAreNeighbours(r, g, t, u);
      LoneJobIsOne(cal, schedules, t, u);
      assert NeighbourJobs(cal, schedules, r, k, g);
    }
    if k :| 0 < k < |r| && NeighbourJobs(cal, schedules, r, k, g) {
      NeighboursApart(cal, schedules, n, k, g);
    }
  }

  lemma NeighboursApart(cal: Calendar, schedules: seq<CronSchedule>, n: nat, k: int, g: int)
    requires AllWellFormed(schedules) && DistinctNames(schedules)
    requires 0 < k < |FiringBefore(cal, schedules, n)|
    requires NeighbourJobs(cal, schedules, FiringBefore(cal, schedules, n), k, g)
    ensures JobsApart(cal, schedules, n, g)
  {
    hide TwoJobs, FiringBefore, SameLoneJob, DistinctNames;
    var r := FiringBefore(cal, schedules, n);
    FiringIncreases(cal, schedules, n);
    FiringMembers(cal, schedules, n, r[k - 1]);
    FiringMembers(cal, schedules, n, r[k]);
    TwoJobsExactlyWhen(cal, schedules, r[k - 1], r[k]);
    assert 0 <= r[k - 1] < r[k] < n;
  }

  // ----- in all time

  /** The least distance, over all time, of two jobs that fire at different minutes. */
  ghost predicate IsLeastOfJobsEver(cal: Calendar, schedules: seq<CronSchedule>, g: int)
    requires AllWellFormed(schedules)
  {
    && (exists t, u :: t < u && u - t == g && TwoJobs(cal, schedules, t, u))
    && (forall t, u :: t < u && TwoJobs(cal, schedules, t, u) ==> g <= u - t)
  }

  lemma TwoJobsWeekly(cal: Calendar, schedules: seq<CronSchedule>, t: int, u: int, k: int)
    requires AllEveryDate(schedules) && TwoJobs(cal, schedules, t, u)
    ensures TwoJobs(cal, schedules, t + k * WEEK, u + k * WEEK)
  {
    hide FiresAt, WellFormed;
    var a, b :| 0 <= a < |schedules| && 0 <= b < |schedules| && a != b
                && FiresAt(cal, schedules[a].schedule, t) && FiresAt(cal, schedules[b].schedule, u);
    FiresWeekly(cal, cal, schedules[a].schedule, t, k);
    FiresWeekly(cal, cal, schedules[b].schedule, u, k);
  }

  /** A pair of jobs, brought into the scanned week by its earlier minute. */
  lemma PairInWeek(cal: Calendar, schedules: seq<CronSchedule>, t: int, u: int)
    requires AllEveryDate(schedules) && t < u && TwoJobs(cal, schedules, t, u)
    ensures InWeek(t) < InWeek(t) + (u - t) && 0 <= InWeek(t) < WEEK
    ensures TwoJobs(cal, schedules, InWeek(t), InWeek(t) + (u - t))
  {
    hide TwoJobs;
    var k := -(t / WEEK);
    TwoJobsWeekly(cal, schedules, t, u, k);
    assert t + k * WEEK == InWeek(t);
    assert u + k * WEEK == InWeek(t) + (u - t);
  }

  lemma ElsewhereFarther(r: seq<int>, i: nat, j: nat)
    requires OfOneWeek(r) && i < |r| && j < |r|
    ensures r[j] + WEEK - r[i] <= Wrap(r) ==> i == |r| - 1 && j == 0
  {
    assert j > 0 ==> r[0] < r[j];
    assert i < |r| - 1 ==> r[i] < r[|r| - 1];
    AcrossWeeks(r, i, 0);
    AcrossWeeks(r, |r| - 1, j);
  }

  lemma LaterWeek(y: int)
    requires y >= WEEK
    ensures y >= InWeek(y) + WEEK
  {
    assert y == y / WEEK * WEEK + InWeek(y);
  }

  /** Only the last and the first minute of the scan are as near over the week's end as the wrap. */
  lemma OnlyTheEnds(r: seq<int>, x: int, y: int)
    requires OfOneWeek(r) && x in r && InWeek(y) in r && y >= WEEK && y - x <= Wrap(r)
    ensures x == r[|r| - 1] && y == r[0] + WEEK
  {
    hide InWeek, OfOneWeek;
    var i: nat :| i < |r| && r[i] == x;
    var j: nat :| j < |r| && r[j] == InWeek(y);
    LaterWeek(y);
    ElsewhereFarther(r, i, j);
  }

  /** The smaller of the scan's gap and the step over the end of the week. */
  function Smaller(gap: Option<int>, wrap: int): int {
    if gap.Some? && gap.value <= wrap then gap.value else wrap
  }

  lemma PairWithin(cal: Calendar, schedules: seq<CronSchedule>, t: int, u: int)
    requires AllEveryDate(schedules) && 0 <= t < WEEK && t < u && TwoJobs(cal, schedules, t, u)
    requires FiringBefore(cal, schedules, WEEK) != []
    requires u - t <= Wrap(FiringBefore(cal, schedules, WEEK))
    ensures var r := FiringBefore(cal, schedules, WEEK);
            u < WEEK || (t == r[|r| - 1] && u == r[0] + WEEK)
  {
    hide TwoJobs, FiringBefore, Fires, Wrap, OfOneWeek;
    var r := FiringBefore(cal, schedules, WEEK);
    if u >= WEEK {
      TwoJobsFire(cal, schedules, t, u);
      ScanOfOneWeek(cal, schedules);
      FiresExactlyWhen(cal, schedules, t);
      FiresExactlyWhen(cal, schedules, u);
      assert InWeek(t) == t;
      OnlyTheEnds(r, t, u);
    }
  }

  lemma EverNear(cal: Calendar, schedules: seq<CronSchedule>, gap: Option<int>, t: int, u: int)
    requires AllEveryDate(schedules) && IsMinDistance(FiringBefore(cal, schedules, WEEK), gap)
    requires FiringBefore(cal, schedules, WEEK) != []
    requires t < u && TwoJobs(cal, schedules, t, u)
    ensures Smaller(gap, Wrap(FiringBefore(cal, schedules, WEEK))) <= u - t
  {
    hide TwoJobs, FiringBefore, IsMinDistance, Fires;
    TwoJobsFire(cal, schedules, t, u);
    NeverCloser(cal, schedules, gap, t, u);
  }

  /** Two jobs fire g minutes apart in the scanned week, or over its end. */
  ghost predicate JobsInWeek(cal: Calendar, schedules: seq<CronSchedule>, g: int)
    requires AllWellFormed(schedules) && FiringBefore(cal, schedules, WEEK) != []
  {
    var r := FiringBefore(cal, schedules, WEEK);
    JobsApart(cal, schedules, WEEK, g) || (g == Wrap(r) && TwoJobs(cal, schedules, r[|r| - 1], r[0] + WEEK))
  }

  lemma FoundInWeek(cal: Calendar, schedules: seq<CronSchedule>, t: int, u: int)
    requires AllEveryDate(schedules) && FiringBefore(cal, schedules, WEEK) != []
    requires t < u && TwoJobs(cal, schedules, t, u) && u - t <= Wrap(FiringBefore(cal, schedules, WEEK))
    ensures JobsInWeek(cal, schedules, u - t)
  {
    hide TwoJobs, FiringBefore, InWeek, WellFormed;
    PairInWeek(cal, schedules, t, u);
    PairWithin(cal, schedules, InWeek(t), InWeek(t) + (u - t));
  }

  lemma WeekIsPartOfTime(cal: Calendar, schedules: seq<CronSchedule>, g: int) returns (t: int, u: int)
    requires AllWellFormed(schedules) && FiringBefore(cal, schedules, WEEK) != []
    requires JobsInWeek(cal, schedules, g)
    ensures t < u && u - t == g && TwoJobs(cal, schedules, t, u)
  {
    hide TwoJobs, FiringBefore, WellFormed;
    if JobsApart(cal, schedules, WEEK, g) {
      t, u :| 0 <= t < u < WEEK && u - t == g && TwoJobs(cal, schedules, t, u);
    } else {
      var r := FiringBefore(cal, schedules, WEEK);
      ScanOfOneWeek(cal, schedules);
      StepForward(r);
      t, u := r[|r| - 1], r[0] + WEEK;
    }
  }

  /**
   * Over all time the closest approach of firing minutes is one of two jobs exactly
   * when it is so within the scanned week, or over its end.
   */
  lemma ClosestIsOfJobsExactlyWhen(cal: Calendar, schedules: seq<CronSchedule>, gap: Option<int>)
    requires AllEveryDate(schedules) && FiringBefore(cal, schedules, WEEK) != []
    requires IsMinDistance(FiringBefore(cal, schedules, WEEK), gap)
    ensures var g := Smaller(gap, Wrap(FiringBefore(cal, schedules, WEEK)));
            && IsClosestApproach(cal, schedules, g)
            && (IsLeastOfJobsEver(cal, schedules, g) <==> JobsInWeek(cal, schedules, g))
  {
    hide TwoJobs, FiringBefore, IsMinDistance, JobsInWeek, Wrap, IsClosestApproach, WellFormed;
    var g := Smaller(gap, Wrap(FiringBefore(cal, schedules, WEEK)));
    ClosestApproach(cal, schedules, gap);
    forall t, u | t < u && TwoJobs(cal, schedules, t, u) ensures g <= u - t {
      EverNear(cal, schedules, gap, t, u);
    }
    if JobsInWeek(cal, schedules, g) {
      var t, u := WeekIsPartOfTime(cal, schedules, g);
    }
    if t, u :| t < u && u - t == g && TwoJobs(cal, schedules, t, u) {
      FoundInWeek(cal, schedules, t, u);
    }
  }

  lemma StepForward(r: seq<int>)
    requires OfOneWeek(r)
    ensures r[|r| - 1] < r[0] + WEEK
  {
    assert |r| > 1 ==> r[0] < r[|r| - 1];
  }

  /** A single entry has no second job to be near to, whatever the scan prints. */
  lemma SingleEntry(cal: Calendar, schedules: seq<CronSchedule>, t: int, u: int)
    requires AllWellFormed(schedules) && |schedules| <= 1
    ensures !TwoJobs(cal, schedules, t, u)
  {
  }

  // ----- the other line

  /**
   * Without a gap the report says that no job fires within the window.  That is so
   * exactly when the scan does not have a single firing minute.
   */
  lemma SilenceExactlyWhen(cal: Calendar, schedules: seq<CronSchedule>, n: nat)
    requires AllWellFormed(schedules) && IsMinDistance(FiringBefore(cal, schedules, n), None)
    ensures (forall t :: 0 <= t < n ==> !Fires(cal, schedules, t)) <==> |FiringBefore(cal, schedules, n)| != 1
  {
    var r := FiringBefore(cal, schedules, n);
    if r != [] {
      FiringMembers(cal, schedules, n, r[0]);
      assert Fires(cal, schedules, r[0]);
    }
    forall t | 0 <= t < n && r == [] ensures !Fires(cal, schedules, t) {
      FiringMembers(cal, schedules, n, t);
    }
  }
}
