/** The schedules of jobs/registry.ts, and what the weekly scan concludes about them. */
module JobRegistry {
  import opened Wrappers
  import opened Text
  import opened Cron
  import opened CronFields
  import opened CronTheorems
  import opened CronApproach

  const JOB_REGISTRY: seq<CronSchedule> := [
    CronSchedule("db-backup", "0 3 * * *"),
    CronSchedule("object-storage-backup", "15 1-23/2 * * *"),
    CronSchedule("cleanup-expired-traces", "0 2 * * *"),
    CronSchedule("cleanup-upload-sessions", "15 */6 * * *"),
    CronSchedule("update-threat-intelligence-sources", "45 */6 * * *"),
    CronSchedule("cleanup-inactive-threat-entries", "0 4 * * *"),
    CronSchedule("cleanup-dismissed-notifications", "30 3 * * *"),
    CronSchedule("cleanup-expired-refresh-tokens", "0 5 * * *")
  ]

  // ----- reading fields

  /** Five fields of one character each. */
  lemma FiveChars(a: char, b: char, c: char, d: char, e: char)
    requires !IsSpace(a) && !IsSpace(b) && !IsSpace(c) && !IsSpace(d) && !IsSpace(e)
    ensures Words([a, ' ', b, ' ', c, ' ', d, ' ', e]) == [[a], [b], [c], [d], [e]]
  {
    hide Words;
    ThreeChars(c, d, e);
    var s3 := [c, ' ', d, ' ', e];
    WordsCons([b], s3);
    assert [b] + " " + s3 == [b, ' ', c, ' ', d, ' ', e];
    WordsCons([a], [b, ' ', c, ' ', d, ' ', e]);
    assert [a] + " " + [b, ' ', c, ' ', d, ' ', e] == [a, ' ', b, ' ', c, ' ', d, ' ', e];
  }

  lemma ThreeChars(c: char, d: char, e: char)
    requires !IsSpace(c) && !IsSpace(d) && !IsSpace(e)
    ensures Words([c, ' ', d, ' ', e]) == [[c], [d], [e]]
  {
    hide Words;
    WordsOne([e]);
    WordsCons([d], [e]);
    assert [d] + " " + [e] == [d, ' ', e];
    WordsCons([c], [d, ' ', e]);
    assert [c] + " " + [d, ' ', e] == [c, ' ', d, ' ', e];
  }

  lemma DigitField(value: int, c: char)
    requires IsDigit(c)
    ensures MatchesCronField(value, [c]) <==> value == Digit(c)
  {
    FieldExactlyWhen(value, Number(Digit(c)));
  }

  lemma TwoDigits(c: char, d: char)
    requires IsDigit(c) && IsDigit(d) && c != '0'
    ensures Decimal(10 * Digit(c) + Digit(d)) == [c, d]
  {
    var n := 10 * Digit(c) + Digit(d);
    assert n / 10 == Digit(c) && n % 10 == Digit(d);
  }

  lemma DigitsField(value: int, c: char, d: char)
    requires IsDigit(c) && IsDigit(d) && c != '0'
    ensures MatchesCronField(value, [c, d]) <==> value == 10 * Digit(c) + Digit(d)
  {
    TwoDigits(c, d);
    FieldExactlyWhen(value, Number(10 * Digit(c) + Digit(d)));
  }

  lemma StepField(value: int, c: char)
    requires IsDigit(c) && c != '0'
    ensures MatchesCronField(value, ['*', '/', c]) <==> value % Digit(c) == 0
  {
    FieldExactlyWhen(value, Every(Digit(c)));
    assert Written(Every(Digit(c))) == ['*', '/', c];
  }

  lemma OneDigit(c: char)
    requires IsDigit(c)
    ensures Decimal(Digit(c)) == [c]
  {
  }

  lemma RangeStepText(a: char, b: char, c: char, d: char)
    requires IsDigit(a) && IsDigit(b) && IsDigit(c) && IsDigit(d) && b != '0'
    ensures Written(RangeEvery(Digit(a), 10 * Digit(b) + Digit(c), Digit(d))) == [a, '-', b, c, '/', d]
  {
    hide Decimal;
    OneDigit(a);
    TwoDigits(b, c);
    OneDigit(d);
  }

  /** a-bc/d */
  lemma RangeStepField(value: int, a: char, b: char, c: char, d: char)
    requires IsDigit(a) && IsDigit(b) && IsDigit(c) && IsDigit(d) && b != '0' && d != '0'
    ensures MatchesCronField(value, [a, '-', b, c, '/', d]) <==>
              Digit(a) <= value <= 10 * Digit(b) + Digit(c) && (value - Digit(a)) % Digit(d) == 0
  {
    hide MatchesCronField, Written, Decimal;
    RangeStepText(a, b, c, d);
    FieldExactlyWhen(value, RangeEvery(Digit(a), 10 * Digit(b) + Digit(c), Digit(d)));
  }

  // ----- the eight jobs

  /** A job that leaves dates and weekdays open. */
  lemma TwoFields(cal: Calendar, schedule: string, minutes: string, hours: string, t: int)
    requires IsWord(minutes) && IsWord(hours)
    requires schedule == minutes + " " + (hours + " " + ['*', ' ', '*', ' ', '*'])
    ensures EveryDate(schedule)
    ensures FiresAt(cal, schedule, t) <==> MatchesCronField(Minutes(t), minutes) && MatchesCronField(Hours(t), hours)
  {
    TwoFieldWords(schedule, minutes, hours);
    hide Words, Minutes, Hours, DayOf, Weekday, MatchesPart;
  }

  lemma TwoFieldWords(schedule: string, minutes: string, hours: string)
    requires IsWord(minutes) && IsWord(hours)
    requires schedule == minutes + " " + (hours + " " + ['*', ' ', '*', ' ', '*'])
    ensures Words(schedule) == [minutes, hours, "*", "*", "*"]
  {
    hide Words, IsWord;
    ThreeChars('*', '*', '*');
    WordsCons(hours, ['*', ' ', '*', ' ', '*']);
    WordsCons(minutes, hours + " " + ['*', ' ', '*', ' ', '*']);
  }

  lemma Daily(cal: Calendar, schedule: string, m: char, h: char, at: (int, int), t: int)
    requires IsDigit(m) && IsDigit(h) && at == (Digit(m), Digit(h))
    requires schedule == [m, ' ', h, ' ', '*', ' ', '*', ' ', '*']
    ensures EveryDate(schedule)
    ensures FiresAt(cal, schedule, t) <==> Minutes(t) == at.0 && Hours(t) == at.1
  {
    hide FiresAt, EveryDate, MatchesCronField, Minutes, Hours;
    TwoFields(cal, schedule, [m], [h], t);
    DigitField(Minutes(t), m);
    DigitField(Hours(t), h);
  }

  lemma DailyPast(cal: Calendar, schedule: string, m: char, n: char, h: char, at: (int, int), t: int)
    requires IsDigit(m) && IsDigit(n) && IsDigit(h) && m != '0' && at == (10 * Digit(m) + Digit(n), Digit(h))
    requires schedule == [m, n, ' ', h, ' ', '*', ' ', '*', ' ', '*']
    ensures EveryDate(schedule)
    ensures FiresAt(cal, schedule, t) <==> Minutes(t) == at.0 && Hours(t) == at.1
  {
    hide FiresAt, EveryDate, MatchesCronField, Minutes, Hours;
    TwoFields(cal, schedule, [m, n], [h], t);
    DigitsField(Minutes(t), m, n);
    DigitField(Hours(t), h);
  }

  lemma EverySoManyHours(cal: Calendar, schedule: string, m: char, n: char, h: char, at: (int, int), t: int)
    requires IsDigit(m) && IsDigit(n) && IsDigit(h) && m != '0' && h != '0'
    requires at == (10 * Digit(m) + Digit(n), Digit(h))
    requires schedule == [m, n, ' ', '*', '/', h, ' ', '*', ' ', '*', ' ', '*']
    ensures EveryDate(schedule)
    ensures FiresAt(cal, schedule, t) <==> Minutes(t) == at.0 && at.1 != 0 && Hours(t) % at.1 == 0
  {
    hide FiresAt, EveryDate, MatchesCronField, Minutes, Hours;
    TwoFields(cal, schedule, [m, n], ['*', '/', h], t);
    DigitsField(Minutes(t), m, n);
    StepField(Hours(t), h);
  }

  lemma SomeHours(cal: Calendar, schedule: string, m: char, n: char, a: char, b: char, c: char, d: char,
                  at: (int, int, int, int), t: int)
    requires IsDigit(m) && IsDigit(n) && IsDigit(a) && IsDigit(b) && IsDigit(c) && IsDigit(d)
    requires m != '0' && b != '0' && d != '0'
    requires at == (10 * Digit(m) + Digit(n), Digit(a), 10 * Digit(b) + Digit(c), Digit(d))
    requires schedule == [m, n, ' ', a, '-', b, c, '/', d, ' ', '*', ' ', '*', ' ', '*']
    ensures EveryDate(schedule)
    ensures FiresAt(cal, schedule, t) <==>
              Minutes(t) == at.0 && at.1 <= Hours(t) <= at.2 && at.3 != 0 && (Hours(t) - at.1) % at.3 == 0
  {
    hide FiresAt, EveryDate, MatchesCronField, Minutes, Hours;
    TwoFields(cal, schedule, [m, n], [a, '-', b, c, '/', d], t);
    DigitsField(Minutes(t), m, n);
    RangeStepField(Hours(t), a, b, c, d);
  }

  /** When the job with this index is due, as minute and hour. */
  predicate Due(job: nat, minutes: int, hours: int) {
    match job
    case 0 => minutes == 0 && hours == 3
    case 1 => minutes == 15 && 1 <= hours <= 23 && (hours - 1) % 2 == 0
    case 2 => minutes == 0 && hours == 2
    case 3 => minutes == 15 && hours % 6 == 0
    case 4 => minutes == 45 && hours % 6 == 0
    case 5 => minutes == 0 && hours == 4
    case 6 => minutes == 30 && hours == 3
    case 7 => minutes == 0 && hours == 5
    case _ => false
  }

  lemma DailyJobs(cal: Calendar, job: nat, schedule: string, h: char, t: int)
    requires job in {0, 2, 5, 7} && schedule == JOB_REGISTRY[job].schedule
    requires h == (match job case 0 => '3' case 2 => '2' case 5 => '4' case _ => '5')
    ensures EveryDate(schedule)
    ensures FiresAt(cal, schedule, t) <==> Due(job, Minutes(t), Hours(t))
  {
    Daily(cal, schedule, '0', h, (0, Digit(h)), t);
  }

  lemma SixHourlyJobs(cal: Calendar, job: nat, schedule: string, m: char, t: int)
    requires job in {3, 4} && schedule == JOB_REGISTRY[job].schedule
    requires m == if job == 3 then '1' else '4'
    ensures EveryDate(schedule)
    ensures FiresAt(cal, schedule, t) <==> Due(job, Minutes(t), Hours(t))
  {
    EverySoManyHours(cal, schedule, m, '5', '6', (if job == 3 then 15 else 45, 6), t);
  }

  lemma OddHourlyJob(cal: Calendar, schedule: string, t: int)
    requires schedule == JOB_REGISTRY[1].schedule
    ensures EveryDate(schedule)
    ensures FiresAt(cal, schedule, t) <==> Due(1, Minutes(t), Hours(t))
  {
    SomeHours(cal, schedule, '1', '5', '1', '2', '3', '2', (15, 1, 23, 2), t);
  }

  lemma HalfPastJob(cal: Calendar, schedule: string, t: int)
    requires schedule == JOB_REGISTRY[6].schedule
    ensures EveryDate(schedule)
    ensures FiresAt(cal, schedule, t) <==> Due(6, Minutes(t), Hours(t))
  {
    DailyPast(cal, schedule, '3', '0', '3', (30, 3), t);
  }

  lemma JobFires(cal: Calendar, job: nat, schedule: string, t: int)
    requires job < |JOB_REGISTRY| && schedule == JOB_REGISTRY[job].schedule
    ensures EveryDate(schedule)
    ensures FiresAt(cal, schedule, t) <==> Due(job, Minutes(t), Hours(t))
  {
    match job
    case 0 => DailyJobs(cal, job, schedule, '3', t);
    case 1 => OddHourlyJob(cal, schedule, t);
    case 2 => DailyJobs(cal, job, schedule, '2', t);
    case 3 => SixHourlyJobs(cal, job, schedule, '1', t);
    case 4 => SixHourlyJobs(cal, job, schedule, '4', t);
    case 5 => DailyJobs(cal, job, schedule, '4', t);
    case 6 => HalfPastJob(cal, schedule, t);
    case 7 => DailyJobs(cal, job, schedule, '5', t);
  }

  /** Eight entries that fire just when the registry's do. */
  ghost predicate RunsAsDue(jobs: seq<CronSchedule>) {
    && |jobs| == 8 && AllEveryDate(jobs)
    && (forall cal, job: nat, t :: job < 8 ==>
          (FiresAt(cal, jobs[job].schedule, t) <==> Due(job, Minutes(t), Hours(t))))
  }

  lemma RegistryRunsAsDue(jobs: seq<CronSchedule>)
    requires jobs == JOB_REGISTRY
    ensures RunsAsDue(jobs)
  {
    forall job: nat | job < 8 ensures EveryDate(jobs[job].schedule) {
      JobFires(_ => (1, 1), job, jobs[job].schedule, 0);
    }
    forall cal, job: nat, t | job < 8
      ensures FiresAt(cal, jobs[job].schedule, t) <==> Due(job, Minutes(t), Hours(t))
    {
      JobFires(cal, job, jobs[job].schedule, t);
    }
  }

  lemma DueOnce(a: nat, b: nat, minutes: int, hours: int)
    requires Due(a, minutes, hours) && Due(b, minutes, hours)
    ensures a == b && minutes % 15 == 0
  {
  }

  lemma NoTwoAreDue(jobs: seq<CronSchedule>, cal: Calendar, t: int)
    requires RunsAsDue(jobs)
    ensures NoClash(cal, jobs, t)
  {
    forall a: nat, b: nat | a < b < |jobs|
      ensures !(FiresAt(cal, jobs[a].schedule, t) && FiresAt(cal, jobs[b].schedule, t))
    {
      if FiresAt(cal, jobs[a].schedule, t) && FiresAt(cal, jobs[b].schedule, t) {
        DueOnce(a, b, Minutes(t), Hours(t));
      }
    }
  }

  /** At no minute of all time, in no calendar, do two registered jobs start together. */
  lemma RegistryNeverClashes(jobs: seq<CronSchedule>)
    requires jobs == JOB_REGISTRY
    ensures AllWellFormed(jobs) && NeverClash(jobs)
  {
    RegistryRunsAsDue(jobs);
    forall cal, t ensures NoClash(cal, jobs, t) {
      NoTwoAreDue(jobs, cal, t);
    }
  }

  lemma QuarterMinutes(t: int)
    requires Minutes(t) % 15 == 0
    ensures t % 15 == 0
  {
    assert t == 15 * (4 * (t / 60)) + Minutes(t);
  }

  lemma QuarterHours(jobs: seq<CronSchedule>, cal: Calendar, t: int)
    requires RunsAsDue(jobs) && Fires(cal, jobs, t)
    ensures t % 15 == 0
  {
    NoneFires(cal, jobs, t);
    var a: nat :| a < |jobs| && FiresAt(cal, jobs[a].schedule, t);
    DueOnce(a, a, Minutes(t), Hours(t));
    QuarterMinutes(t);
  }

  lemma FiresWhenDue(jobs: seq<CronSchedule>, cal: Calendar, job: nat, t: int)
    requires RunsAsDue(jobs) && Due(job, Minutes(t), Hours(t))
    ensures Fires(cal, jobs, t)
  {
    NoneFires(cal, jobs, t);
    assert FiresAt(cal, jobs[job].schedule, t);
  }

  /** The closest pair of the day. */
  lemma NightlyPair(jobs: seq<CronSchedule>, cal: Calendar)
    requires RunsAsDue(jobs)
    ensures Fires(cal, jobs, 180) && Fires(cal, jobs, 195)
  {
    FiresWhenDue(jobs, cal, 0, 180);
    FiresWhenDue(jobs, cal, 1, 195);
  }

  lemma MultiplesApart(t: int, u: int)
    requires t < u && t % 15 == 0 && u % 15 == 0
    ensures 15 <= u - t
  {
  }

  lemma NoNearerPair(jobs: seq<CronSchedule>, cal: Calendar, t: int, u: int)
    requires RunsAsDue(jobs) && t < u && Fires(cal, jobs, t) && Fires(cal, jobs, u)
    ensures 15 <= u - t
  {
    hide RunsAsDue, Fires;
    QuarterHours(jobs, cal, t);
    QuarterHours(jobs, cal, u);
    MultiplesApart(t, u);
  }

  lemma QuarterHourApart(jobs: seq<CronSchedule>, cal: Calendar)
    requires RunsAsDue(jobs)
    ensures IsClosestApproach(cal, jobs, 15)
  {
    forall t, u | t < u && Fires(cal, jobs, t) && Fires(cal, jobs, u) ensures 15 <= u - t {
      NoNearerPair(jobs, cal, t, u);
    }
    NightlyPair(jobs, cal);
    assert 180 < 195 && 195 - 180 == 15;
  }

  /** Distinct start minutes are at least a quarter of an hour apart, and some are exactly that. */
  lemma RegistryClosestApproach(jobs: seq<CronSchedule>, cal: Calendar)
    requires jobs == JOB_REGISTRY
    ensures AllWellFormed(jobs) && IsClosestApproach(cal, jobs, 15)
  {
    RegistryRunsAsDue(jobs);
    QuarterHourApart(jobs, cal);
  }

  lemma NightlyJobs(jobs: seq<CronSchedule>, cal: Calendar)
    requires RunsAsDue(jobs)
    ensures TwoJobs(cal, jobs, 180, 195)
  {
    assert FiresAt(cal, jobs[0].schedule, 180);
    assert FiresAt(cal, jobs[1].schedule, 195);
  }

  /** And that distance is one of two different jobs, the two backups of the night. */
  lemma RegistryJobsApart(jobs: seq<CronSchedule>, cal: Calendar)
    requires jobs == JOB_REGISTRY
    ensures AllWellFormed(jobs) && IsLeastOfJobs(cal, jobs, WEEK, 15) && IsLeastOfJobsEver(cal, jobs, 15)
  {
    RegistryRunsAsDue(jobs);
    JobsAQuarterApart(jobs, cal);
  }

  lemma JobsAQuarterApart(jobs: seq<CronSchedule>, cal: Calendar)
    requires RunsAsDue(jobs)
    ensures IsLeastOfJobs(cal, jobs, WEEK, 15) && IsLeastOfJobsEver(cal, jobs, 15)
  {
    assert AllWellFormed(jobs);
    hide RunsAsDue, TwoJobs, Fires, FiresAt, WellFormed;
    NightlyJobs(jobs, cal);
    assert 0 <= 180 < 195 < WEEK && 195 - 180 == 15;
    forall t, u | t < u && TwoJobs(cal, jobs, t, u) ensures 15 <= u - t {
      TwoJobsFire(cal, jobs, t, u);
      NoNearerPair(jobs, cal, t, u);
    }
  }

  lemma EarlyFirings(jobs: seq<CronSchedule>, cal: Calendar)
    requires RunsAsDue(jobs)
    ensures 180 in FiringBefore(cal, jobs, WEEK) && 195 in FiringBefore(cal, jobs, WEEK)
  {
    NightlyPair(jobs, cal);
    FiringMembers(cal, jobs, WEEK, 180);
    FiringMembers(cal, jobs, WEEK, 195);
  }

  lemma SmallGap(jobs: seq<CronSchedule>, cal: Calendar, gap: Option<int>)
    requires RunsAsDue(jobs) && IsMinDistance(FiringBefore(cal, jobs, WEEK), gap)
    ensures gap.Some? && gap.value <= 15
  {
    EarlyFirings(jobs, cal);
    InstantsIncrease(Active(cal, jobs), WEEK);
    AtMost(FiringBefore(cal, jobs, WEEK), gap, 180, 195);
  }

  lemma PrintedGap(jobs: seq<CronSchedule>, cal: Calendar, gap: Option<int>)
    requires RunsAsDue(jobs) && IsMinDistance(FiringBefore(cal, jobs, WEEK), gap)
    ensures gap == Some(15)
  {
    hide FiringBefore, Fires;
    SmallGap(jobs, cal, gap);
    var t, u := GapOccurs(cal, jobs, gap.value);
    NoNearerPair(jobs, cal, t, u);
  }

  /** What the script prints for the registry: no overlap, and a gap of 15 minutes. */
  lemma RegistryReport(jobs: seq<CronSchedule>, cal: Calendar, gap: Option<int>)
    requires jobs == JOB_REGISTRY && AllWellFormed(jobs) && IsMinDistance(FiringBefore(cal, jobs, WEEK), gap)
    ensures OverlapsBefore(cal, jobs, WEEK) == [] && gap == Some(15)
  {
    RegistryRunsAsDue(jobs);
    RegistryNeverClashes(jobs);
    assert WEEK == 7 * DAY;
    EmptyScanExactlyWhen(cal, jobs, 7);
    PrintedGap(jobs, cal, gap);
  }

  // ----- a list of one job

  lemma OneJobFires(cal: Calendar, jobs: seq<CronSchedule>, t: int)
    requires |jobs| == 1 && WellFormed(jobs[0].schedule)
    ensures Fires(cal, jobs, t) <==> FiresAt(cal, jobs[0].schedule, t)
  {
    NoneFires(cal, jobs, t);
  }

  lemma FiveMinutesFire(cal: Calendar, schedule: string, five: char, t: int)
    requires five == '5' && schedule == ['*', '/', five, ' ', '*', ' ', '*', ' ', '*', ' ', '*']
    ensures EveryDate(schedule)
    ensures FiresAt(cal, schedule, t) <==> Minutes(t) % 5 == 0
  {
    hide FiresAt, EveryDate, MatchesCronField, Minutes, Hours;
    TwoFields(cal, schedule, ['*', '/', five], ['*'], t);
    StepField(Minutes(t), five);
    FieldExactlyWhen(Hours(t), Any);
  }

  lemma FifthMinutes(t: int)
    ensures Minutes(t) % 5 == 0 <==> t % 5 == 0
  {
    assert t == 60 * (t / 60) + Minutes(t);
  }

  lemma FiveMinutesScan(cal: Calendar, jobs: seq<CronSchedule>, n: nat, t: int)
    requires |jobs| == 1 && jobs[0].schedule == "*/5 * * * *"
    ensures AllWellFormed(jobs)
    ensures t in FiringBefore(cal, jobs, n) <==> 0 <= t < n && t % 5 == 0
  {
    hide FiresAt;
    FiveMinutesFire(cal, jobs[0].schedule, '5', t);
    OneJobFires(cal, jobs, t);
    FifthMinutes(t);
    FiringMembers(cal, jobs, n, t);
  }

  lemma FivesApart(r: seq<int>, i: nat, j: nat)
    requires Increasing(r) && i < j < |r| && forall t :: t in r ==> t % 5 == 0
    ensures 5 <= r[j] - r[i]
  {
    assert r[i] in r && r[j] in r;
  }

  lemma FivesStart(r: seq<int>)
    requires Increasing(r) && 0 in r && 5 in r && forall t :: t in r ==> t % 5 == 0
    ensures IsMinDistance(r, Some(5))
  {
    var i :| 0 <= i < |r| && r[i] == 0;
    var j :| 0 <= j < |r| && r[j] == 5;
    InOrder(r, j, i);
    forall a, b | 0 <= a < b < |r| ensures 5 <= r[b] - r[a] {
      FivesApart(r, a, b);
    }
  }

  /** One job every five minutes: the scan prints a closest approach of five minutes between two jobs. */
  lemma OneJobTwice(cal: Calendar, jobs: seq<CronSchedule>, n: nat)
    requires |jobs| == 1 && jobs[0].schedule == "*/5 * * * *" && n > 5
    ensures AllWellFormed(jobs)
    ensures IsMinDistance(FiringBefore(cal, jobs, n), Some(5))
    ensures !JobsApart(cal, jobs, n, 5) && forall t, u :: !TwoJobs(cal, jobs, t, u)
  {
    hide FiringBefore, WellFormed;
    forall t: int
      ensures AllWellFormed(jobs) && (t in FiringBefore(cal, jobs, n) <==> 0 <= t < n && t % 5 == 0)
    {
      FiveMinutesScan(cal, jobs, n, t);
    }
    FiveMinutesScan(cal, jobs, n, 0);
    FiringIncreases(cal, jobs, n);
    FivesStart(FiringBefore(cal, jobs, n));
    forall t, u ensures !TwoJobs(cal, jobs, t, u) {
      SingleEntry(cal, jobs, t, u);
    }
  }

  lemma OnceAWeek(t: int)
    requires 0 <= t < WEEK && Minutes(t) == 0 && Hours(t) == 0 && Weekday(t) == 0
    ensures t == 6 * DAY
  {
    assert 0 <= DayOf(t) < 7;
    assert DayOf(t) == 6;
    assert t - 6 * DAY == 60 * Hours(t) + Minutes(t);
  }

  lemma SundayMembers(cal: Calendar, jobs: seq<CronSchedule>, t: int)
    requires |jobs| == 1 && jobs[0].schedule == "0 0 * * 0"
    ensures AllWellFormed(jobs)
    ensures t in FiringBefore(cal, jobs, WEEK) <==> t == 6 * DAY
  {
    hide FiresAt;
    SundayFires(cal, jobs[0].schedule, '0', t);
    OneJobFires(cal, jobs, t);
    FiringMembers(cal, jobs, WEEK, t);
    if 0 <= t < WEEK && FiresAt(cal, jobs[0].schedule, t) { OnceAWeek(t); }
  }

  /** One job on Sundays: the report says that no job fires within the window. */
  lemma SundayIsSilent(cal: Calendar, jobs: seq<CronSchedule>)
    requires |jobs| == 1 && jobs[0].schedule == "0 0 * * 0"
    ensures AllWellFormed(jobs)
    ensures IsMinDistance(FiringBefore(cal, jobs, WEEK), None) && Fires(cal, jobs, 6 * DAY)
  {
    hide FiringBefore, WellFormed;
    forall t: int ensures AllWellFormed(jobs) && (t in FiringBefore(cal, jobs, WEEK) <==> t == 6 * DAY) {
      SundayMembers(cal, jobs, t);
    }
    SundayMembers(cal, jobs, 6 * DAY);
    FiringMembers(cal, jobs, WEEK, 6 * DAY);
    FiringIncreases(cal, jobs, WEEK);
    OneInstant(FiringBefore(cal, jobs, WEEK), 6 * DAY);
  }

  lemma OneInstant(r: seq<int>, t: int)
    requires Increasing(r) && forall u :: u in r <==> u == t
    ensures IsMinDistance(r, None)
  {
    TwoInstants(r);
  }

  lemma TwoInstants(r: seq<int>)
    requires Increasing(r)
    ensures |r| >= 2 ==> r[0] in r && r[1] in r && r[0] < r[1]
  {
  }

  // ----- where an empty scan proves nothing

  /** The same expression under two names. */
  function Twice(schedule: string): seq<CronSchedule> {
    [CronSchedule("a", schedule), CronSchedule("b", schedule)]
  }

  lemma TwiceFires(cal: Calendar, schedule: string, t: int)
    requires WellFormed(schedule)
    ensures AllWellFormed(Twice(schedule)) && (NoClash(cal, Twice(schedule), t) <==> !FiresAt(cal, schedule, t))
  {
    var jobs := Twice(schedule);
    assert jobs[0].schedule == schedule && jobs[1].schedule == schedule;
  }

  lemma TwiceUnseen(cal: Calendar, schedule: string, n: nat)
    requires WellFormed(schedule) && AllWellFormed(Twice(schedule))
    requires forall t :: 0 <= t < n ==> !FiresAt(cal, schedule, t)
    ensures OverlapsBefore(cal, Twice(schedule), n) == []
  {
    if OverlapsBefore(cal, Twice(schedule), n) != [] {
      ListedClash(cal, Twice(schedule), n);
      var t :| 0 <= t < n && !NoClash(cal, Twice(schedule), t);
      TwiceFires(cal, schedule, t);
    }
  }

  /** Midnight on Sunday. */
  lemma SundayFires(cal: Calendar, schedule: string, z: char, t: int)
    requires z == '0' && schedule == [z, ' ', z, ' ', '*', ' ', '*', ' ', z]
    ensures EveryDate(schedule)
    ensures FiresAt(cal, schedule, t) <==> Minutes(t) == 0 && Hours(t) == 0 && Weekday(t) == 0
  {
    FiveChars(z, z, '*', '*', z);
    DigitField(Minutes(t), z);
    DigitField(Hours(t), z);
    DigitField(Weekday(t), z);
    DigitField(7, z);
  }

  lemma NotSunday(t: int)
    requires 0 <= t < 6 * DAY
    ensures Weekday(t) != 0
  {
    assert 0 <= DayOf(t) < 6;
  }

  /** An empty scan of so many days proves a list without dates free of clashes. */
  ghost predicate SoundWindow(cal: Calendar, windowDays: nat) {
    forall jobs :: AllEveryDate(jobs) ==> Vouches(cal, jobs, windowDays)
  }

  ghost predicate Vouches(cal: Calendar, jobs: seq<CronSchedule>, windowDays: nat)
    requires AllEveryDate(jobs)
  {
    OverlapsBefore(cal, jobs, windowDays * DAY) == [] ==> NeverClash(jobs)
  }

  /** Sunday is the last day of the anchored week: a scan of fewer days does not see it. */
  lemma ShortScanMisses(cal: Calendar, schedule: string, windowDays: nat)
    requires schedule == "0 0 * * 0" && windowDays < 7
    ensures EveryDate(schedule) && AllEveryDate(Twice(schedule)) && !Vouches(cal, Twice(schedule), windowDays)
  {
    hide FiresAt, EveryDate, WellFormed, Vouches;
    SundayFires(cal, schedule, '0', 6 * DAY);
    SundayDate(schedule);
    forall t | 0 <= t < windowDays * DAY ensures !FiresAt(cal, schedule, t) {
      SundayFires(cal, schedule, '0', t);
      NotSunday(t);
    }
    TwiceUnseen(cal, schedule, windowDays * DAY);
    TwiceClashes(cal, schedule, 6 * DAY, windowDays);
  }

  lemma SundayDate(schedule: string)
    requires EveryDate(schedule)
    ensures WellFormed(schedule) && AllWellFormed(Twice(schedule)) && AllEveryDate(Twice(schedule))
  {
  }

  lemma TwiceClashes(cal: Calendar, schedule: string, t: int, windowDays: nat)
    requires AllEveryDate(Twice(schedule)) && WellFormed(schedule) && FiresAt(cal, schedule, t)
    requires OverlapsBefore(cal, Twice(schedule), windowDays * DAY) == []
    ensures !Vouches(cal, Twice(schedule), windowDays)
  {
    hide FiresAt, WellFormed, EveryDate;
    TwiceFires(cal, schedule, t);
  }

  /** A window vouches for every list without dates exactly when it spans a week. */
  lemma SoundWindowExactlyWhen(cal: Calendar, windowDays: nat)
    ensures SoundWindow(cal, windowDays) <==> windowDays >= 7
  {
    hide FiresAt, WellFormed, EveryDate, NeverClash;
    if windowDays >= 7 {
      forall jobs | AllEveryDate(jobs) ensures Vouches(cal, jobs, windowDays) {
        EmptyScanExactlyWhen(cal, jobs, windowDays);
      }
    } else {
      var schedule := "0 0 * * 0";
      ShortScanMisses(cal, schedule, windowDays);
    }
  }

  /** Midnight on the ninth of the month. */
  lemma NinthFires(cal: Calendar, schedule: string, z: char, d: char, t: int)
    requires z == '0' && d == '9' && schedule == [z, ' ', z, ' ', d, ' ', '*', ' ', '*']
    ensures WellFormed(schedule)
    ensures FiresAt(cal, schedule, t) <==> Minutes(t) == 0 && Hours(t) == 0 && cal(DayOf(t)).0 == 9
  {
    FiveChars(z, z, d, '*', '*');
    DigitField(Minutes(t), z);
    DigitField(Hours(t), z);
    DigitField(cal(DayOf(t)).0, d);
  }

  lemma FirstSevenDays(t: int)
    requires 0 <= t < WEEK
    ensures 0 <= DayOf(t) < 7
  {
  }

  /** A restricted day of month need not come up in the scanned week, the first of January 2024. */
  lemma DatedScanMisses(cal: Calendar, schedule: string)
    requires schedule == "0 0 9 * *"
    requires forall day :: 0 <= day < 31 ==> cal(day) == (day + 1, 1)
    ensures WellFormed(schedule) && AllWellFormed(Twice(schedule))
    ensures OverlapsBefore(cal, Twice(schedule), WEEK) == [] && !NoClash(cal, Twice(schedule), 8 * DAY)
  {
    hide FiresAt, WellFormed, NoClash;
    NinthFires(cal, schedule, '0', '9', 8 * DAY);
    assert DayOf(8 * DAY) == 8;
    TwiceFires(cal, schedule, 8 * DAY);
    forall t | 0 <= t < WEEK ensures !FiresAt(cal, schedule, t) {
      NinthFires(cal, schedule, '0', '9', t);
      FirstSevenDays(t);
    }
    TwiceUnseen(cal, schedule, WEEK);
  }
}
