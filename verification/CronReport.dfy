/** The order in which the script lists and scans the jobs, and that its verdict does not depend on it. */
module CronReport {
  import opened Wrappers
  import opened Text
  import opened Cron
  import opened CronFields
  import opened CronTheorems

  const MAX_SAFE_INTEGER := 0x1F_FFFF_FFFF_FFFF

  function FiringTimes(cal: Calendar, schedule: string): int -> bool
    requires WellFormed(schedule)
  {
    (t: int) => FiresAt(cal, schedule, t)
  }

  /** The first minute of the anchor day at which it happens; the greatest integer when there is none. */
  ghost predicate IsFirst(happens: int -> bool, minute: int) {
    && ((0 <= minute < DAY && happens(minute)) || minute == MAX_SAFE_INTEGER)
    && forall m :: 0 <= m < DAY && m < minute ==> !happens(m)
  }

  ghost predicate IsFirstFiring(cal: Calendar, schedule: string, minute: int)
    requires WellFormed(schedule)
  {
    IsFirst(FiringTimes(cal, schedule), minute)
  }

  method FirstMinute(happens: int -> bool) returns (first: int)
    ensures IsFirst(happens, first)
  {
    for minute := 0 to DAY
      invariant forall m :: 0 <= m < minute ==> !happens(m)
    {
      if happens(minute) {
        return minute;
      }
    }
    return MAX_SAFE_INTEGER;
  }

  method FirstFiringMinuteOfDay(cal: Calendar, schedule: string) returns (first: int)
    requires WellFormed(schedule)
    ensures IsFirstFiring(cal, schedule, first)
  {
    first := FirstMinute(FiringTimes(cal, schedule));
  }

  lemma FirstUnique(happens: int -> bool, m: int, n: int)
    requires IsFirst(happens, m) && IsFirst(happens, n)
    ensures m == n
  {
  }

  /** No entry first fires before the one in front of it. */
  ghost predicate EarliestFirst(cal: Calendar, schedules: seq<CronSchedule>)
    requires AllWellFormed(schedules)
  {
    forall i, j, m, n ::
      0 <= i < j < |schedules|
      && IsFirstFiring(cal, schedules[i].schedule, m) && IsFirstFiring(cal, schedules[j].schedule, n)
      ==> m <= n
  }

  ghost predicate Sorted(keys: seq<int>) {
    forall i, j :: 0 <= i < j < |keys| ==> keys[i] <= keys[j]
  }

  ghost predicate KeysOf(cal: Calendar, schedules: seq<CronSchedule>, keys: seq<int>) {
    && |keys| == |schedules|
    && forall i :: 0 <= i < |keys| ==>
         WellFormed(schedules[i].schedule) && IsFirstFiring(cal, schedules[i].schedule, keys[i])
  }

  /** Where a key goes: behind the keys that are not greater. */
  method Position(keys: seq<int>, key: int) returns (p: nat)
    requires Sorted(keys)
    ensures p <= |keys|
    ensures forall i :: 0 <= i < p ==> keys[i] <= key
    ensures forall i :: p <= i < |keys| ==> key < keys[i]
  {
    p := |keys|;
    while p > 0 && key < keys[p - 1]
      invariant p <= |keys| && forall i :: p <= i < |keys| ==> key < keys[i]
    {
      p := p - 1;
    }
  }

  lemma KeysInserted(cal: Calendar, r: seq<CronSchedule>, keys: seq<int>, s: CronSchedule, key: int, p: nat)
    requires KeysOf(cal, r, keys) && p <= |keys|
    requires WellFormed(s.schedule) && IsFirstFiring(cal, s.schedule, key)
    ensures KeysOf(cal, r[..p] + [s] + r[p..], keys[..p] + [key] + keys[p..])
    ensures multiset(r[..p] + [s] + r[p..]) == multiset(r) + multiset{s}
  {
    assert r == r[..p] + r[p..];
  }

  lemma SortedInserted(keys: seq<int>, key: int, p: nat)
    requires Sorted(keys) && p <= |keys|
    requires (forall i :: 0 <= i < p ==> keys[i] <= key) && (forall i :: p <= i < |keys| ==> key < keys[i])
    ensures Sorted(keys[..p] + [key] + keys[p..])
  {
  }

  // ----- ties keep their order

  function Filter(schedules: seq<CronSchedule>, keep: CronSchedule -> bool): seq<CronSchedule> {
    if schedules == [] then []
    else (if keep(schedules[0]) then [schedules[0]] else []) + Filter(schedules[1..], keep)
  }

  ghost function FirstAt(cal: Calendar, minute: int): CronSchedule -> bool {
    (s: CronSchedule) => WellFormed(s.schedule) && IsFirstFiring(cal, s.schedule, minute)
  }

  /** The entries that first fire at one minute stand in the same order in both lists, whichever minute it is. */
  ghost predicate SameOrder(cal: Calendar, a: seq<CronSchedule>, b: seq<CronSchedule>) {
    forall minute: int :: Filter(a, FirstAt(cal, minute)) == Filter(b, FirstAt(cal, minute))
  }

  lemma AfterFirst(a: seq<CronSchedule>, keep: CronSchedule -> bool)
    requires a != []
    ensures Filter(a, keep) == (if keep(a[0]) then [a[0]] else []) + Filter(a[1..], keep)
  {
  }

  lemma {:induction false} FilterAppend(a: seq<CronSchedule>, b: seq<CronSchedule>, keep: CronSchedule -> bool)
    ensures Filter(a + b, keep) == Filter(a, keep) + Filter(b, keep)
  {
    if a == [] {
      assert a + b == b;
    } else {
      assert (a + b)[1..] == a[1..] + b && (a + b)[0] == a[0];
      FilterAppend(a[1..], b, keep);
      AfterFirst(a + b, keep);
      AfterFirst(a, keep);
      hide Filter;
    }
  }

  lemma {:induction false} FilterNone(a: seq<CronSchedule>, keep: CronSchedule -> bool)
    requires forall i :: 0 <= i < |a| ==> !keep(a[i])
    ensures Filter(a, keep) == []
  {
    if a != [] {
      FilterNone(a[1..], keep);
    }
  }

  lemma FilterInserted(front: seq<CronSchedule>, s: CronSchedule, back: seq<CronSchedule>, keep: CronSchedule -> bool)
    requires keep(s) ==> Filter(back, keep) == []
    ensures Filter(front + [s] + back, keep) == Filter(front + back, keep) + Filter([s], keep)
  {
    FilterAppend(front, [s], keep);
    FilterAppend(front + [s], back, keep);
    FilterAppend(front, back, keep);
  }

  lemma LaterKeys(cal: Calendar, r: seq<CronSchedule>, keys: seq<int>, s: CronSchedule, key: int, p: nat, minute: int)
    requires KeysOf(cal, r, keys) && p <= |keys| && forall i :: p <= i < |keys| ==> key < keys[i]
    requires WellFormed(s.schedule) && IsFirstFiring(cal, s.schedule, key) && FirstAt(cal, minute)(s)
    ensures Filter(r[p..], FirstAt(cal, minute)) == []
  {
    hide IsFirst;
    FirstUnique(FiringTimes(cal, s.schedule), key, minute);
    forall i | 0 <= i < |r[p..]| ensures !FirstAt(cal, minute)(r[p..][i]) {
      if FirstAt(cal, minute)(r[p + i]) {
        FirstUnique(FiringTimes(cal, r[p + i].schedule), keys[p + i], minute);
      }
    }
    FilterNone(r[p..], FirstAt(cal, minute));
  }

  lemma OrderInserted(cal: Calendar, before: seq<CronSchedule>, r: seq<CronSchedule>, keys: seq<int>,
                      s: CronSchedule, key: int, p: nat)
    requires SameOrder(cal, r, before) && KeysOf(cal, r, keys)
    requires p <= |keys| && forall i :: p <= i < |keys| ==> key < keys[i]
    requires WellFormed(s.schedule) && IsFirstFiring(cal, s.schedule, key)
    ensures SameOrder(cal, r[..p] + [s] + r[p..], before + [s])
  {
    hide IsFirstFiring, WellFormed;
    assert r == r[..p] + r[p..];
    forall minute: int
      ensures Filter(r[..p] + [s] + r[p..], FirstAt(cal, minute)) == Filter(before + [s], FirstAt(cal, minute))
    {
      var keep := FirstAt(cal, minute);
      if keep(s) { LaterKeys(cal, r, keys, s, key, p, minute); }
      FilterInserted(r[..p], s, r[p..], keep);
      FilterAppend(before, [s], keep);
    }
  }

  lemma OrderKept(cal: Calendar, schedules: seq<CronSchedule>)
    ensures SameOrder(cal, schedules, schedules)
  {
  }

  /** A stable insertion for the built-in sort. */
  method InsertionSort(cal: Calendar, schedules: seq<CronSchedule>) returns (r: seq<CronSchedule>)
    requires AllWellFormed(schedules)
    ensures multiset(r) == multiset(schedules) && AllWellFormed(r)
    ensures EarliestFirst(cal, r) && SameOrder(cal, r, schedules)
  {
    hide IsFirstFiring, FiresAt, WellFormed, SameOrder;
    var keys: seq<int>;
    r, keys := [], [];
    OrderKept(cal, []);
    for i := 0 to |schedules|
      invariant KeysOf(cal, r, keys) && Sorted(keys)
      invariant multiset(r) == multiset(schedules[..i]) && SameOrder(cal, r, schedules[..i])
    {
      var s := schedules[i];
      var key := FirstFiringMinuteOfDay(cal, s.schedule);
      var p := Position(keys, key);
      KeysInserted(cal, r, keys, s, key, p);
      SortedInserted(keys, key, p);
      OrderInserted(cal, schedules[..i], r, keys, s, key, p);
      r, keys := r[..p] + [s] + r[p..], keys[..p] + [key] + keys[p..];
      assert schedules[..i + 1] == schedules[..i] + [s];
    }
    assert schedules[..|schedules|] == schedules;
    SortedKeys(cal, r, keys);
  }

  lemma FewAreSorted(cal: Calendar, schedules: seq<CronSchedule>)
    requires |schedules| <= 1 && AllWellFormed(schedules)
    ensures EarliestFirst(cal, schedules)
  {
  }

  /** The comparison, and with it a malformed entry's error, comes in only from two entries on. */
  method SortByFirstFiringTime(cal: Calendar, schedules: seq<CronSchedule>) returns (result: Option<seq<CronSchedule>>)
    ensures result.None? <==> |schedules| > 1 && !AllWellFormed(schedules)
    ensures result.Some? ==> multiset(result.value) == multiset(schedules)
    ensures result.Some? && AllWellFormed(schedules) ==> AllWellFormed(result.value) && EarliestFirst(cal, result.value)
    ensures result.Some? ==> SameOrder(cal, result.value, schedules)
  {
    hide EarliestFirst, WellFormed, SameOrder;
    if |schedules| <= 1 {
      OrderKept(cal, schedules);
      if AllWellFormed(schedules) { FewAreSorted(cal, schedules); }
      return Some(schedules);
    }
    if !AllWellFormed(schedules) {
      return None;
    }
    var r := InsertionSort(cal, schedules);
    return Some(r);
  }

  lemma SortedKeys(cal: Calendar, r: seq<CronSchedule>, keys: seq<int>)
    requires KeysOf(cal, r, keys) && Sorted(keys)
    ensures AllWellFormed(r) && EarliestFirst(cal, r)
  {
    forall i, j, m, n | 0 <= i < j < |r| && IsFirstFiring(cal, r[i].schedule, m) && IsFirstFiring(cal, r[j].schedule, n)
      ensures m <= n
    {
      FirstUnique(FiringTimes(cal, r[i].schedule), m, keys[i]);
      FirstUnique(FiringTimes(cal, r[j].schedule), n, keys[j]);
    }
  }

  // ----- order does not matter

  /** The names of the due entries, in order. */
  function DueNames(schedules: seq<CronSchedule>, due: CronSchedule -> bool): seq<string> {
    if schedules == [] then []
    else (if due(schedules[0]) then [schedules[0].name] else []) + DueNames(schedules[1..], due)
  }

  function DueAt(cal: Calendar, t: int): CronSchedule -> bool {
    (s: CronSchedule) => WellFormed(s.schedule) && FiresAt(cal, s.schedule, t)
  }

  lemma {:induction false} FiringIsDue(cal: Calendar, schedules: seq<CronSchedule>, t: int)
    requires AllWellFormed(schedules)
    ensures Firing(cal, schedules, t) == DueNames(schedules, DueAt(cal, t))
  {
    if schedules != [] {
      FiringIsDue(cal, schedules[1..], t);
    }
  }

  lemma {:induction false} DueAppend(a: seq<CronSchedule>, b: seq<CronSchedule>, due: CronSchedule -> bool)
    ensures DueNames(a + b, due) == DueNames(a, due) + DueNames(b, due)
  {
    if a == [] {
      assert a + b == b;
    } else {
      assert (a + b)[1..] == a[1..] + b;
      DueAppend(a[1..], b, due);
    }
  }

  lemma Reordered(a: seq<CronSchedule>, b: seq<CronSchedule>)
    requires AllWellFormed(a) && multiset(a) == multiset(b)
    ensures AllWellFormed(b)
  {
    forall i | 0 <= i < |b| ensures WellFormed(b[i].schedule) {
      assert b[i] in multiset(b);
      assert b[i] in a;
    }
  }

  /** The first entry of one list, found in the other. */
  lemma FindFirst(a: seq<CronSchedule>, b: seq<CronSchedule>)
    returns (front: seq<CronSchedule>, back: seq<CronSchedule>)
    requires a != [] && multiset(a) == multiset(b)
    ensures b == front + [a[0]] + back && multiset(a[1..]) == multiset(front + back)
  {
    assert a[0] in multiset(b);
    var i :| 0 <= i < |b| && b[i] == a[0];
    front, back := b[..i], b[i + 1..];
    assert b == front + [a[0]] + back;
    WithoutFirst(a);
    WithoutOne(front, a[0], back);
  }

  lemma WithoutFirst(a: seq<CronSchedule>)
    requires a != []
    ensures multiset(a) - multiset{a[0]} == multiset(a[1..])
  {
    assert a == [a[0]] + a[1..];
  }

  lemma WithoutOne(front: seq<CronSchedule>, x: CronSchedule, back: seq<CronSchedule>)
    ensures multiset(front + [x] + back) - multiset{x} == multiset(front + back)
  {
  }

  lemma Bags(a: seq<string>, b: seq<string>, c: seq<string>)
    ensures multiset(a + b + c) == multiset(b) + multiset(a + c)
  {
  }

  /** Pulling an entry to the front keeps the names that are due. */
  lemma PulledFront(front: seq<CronSchedule>, x: CronSchedule, back: seq<CronSchedule>, due: CronSchedule -> bool)
    ensures multiset(DueNames(front + [x] + back, due)) ==
              multiset(DueNames([x], due)) + multiset(DueNames(front + back, due))
  {
    DueAppend(front, [x], due);
    DueAppend(front + [x], back, due);
    DueAppend(front, back, due);
    Bags(DueNames(front, due), DueNames([x], due), DueNames(back, due));
  }

  lemma {:induction false} SameNamesDue(a: seq<CronSchedule>, b: seq<CronSchedule>, due: CronSchedule -> bool)
    requires multiset(a) == multiset(b)
    ensures multiset(DueNames(a, due)) == multiset(DueNames(b, due))
  {
    if a == [] {
      assert |b| == |multiset(b)| == 0;
    } else {
      var front, back := FindFirst(a, b);
      PulledFront(front, a[0], back, due);
      PulledFront([], a[0], a[1..], due);
      assert [] + [a[0]] + a[1..] == a && [] + a[1..] == a[1..];
      SameNamesDue(a[1..], front + back, due);
    }
  }

  /** The same entries in another order fire the same jobs. */
  lemma SameJobsFire(cal: Calendar, a: seq<CronSchedule>, b: seq<CronSchedule>, t: int)
    requires AllWellFormed(a) && AllWellFormed(b) && multiset(a) == multiset(b)
    ensures multiset(Firing(cal, a, t)) == multiset(Firing(cal, b, t))
    ensures |Firing(cal, a, t)| == |Firing(cal, b, t)|
  {
    FiringIsDue(cal, a, t);
    FiringIsDue(cal, b, t);
    SameNamesDue(a, b, DueAt(cal, t));
    SameSize(Firing(cal, a, t), Firing(cal, b, t));
  }

  lemma SameSize(a: seq<string>, b: seq<string>)
    requires multiset(a) == multiset(b)
    ensures |a| == |b|
  {
    assert |multiset(a)| == |a| && |multiset(b)| == |b|;
  }

  lemma {:induction false} SameInstants(f: int -> bool, g: int -> bool, n: nat)
    requires forall t: int :: f(t) == g(t)
    ensures Instants(f, n) == Instants(g, n)
  {
    if n > 0 {
      SameInstants(f, g, n - 1);
    }
  }

  lemma SameMinutesFire(cal: Calendar, a: seq<CronSchedule>, b: seq<CronSchedule>, n: nat)
    requires AllWellFormed(a) && AllWellFormed(b) && multiset(a) == multiset(b)
    ensures FiringBefore(cal, a, n) == FiringBefore(cal, b, n)
  {
    forall t: int ensures Active(cal, a)(t) == Active(cal, b)(t) {
      SameJobsFire(cal, a, b, t);
    }
    SameInstants(Active(cal, a), Active(cal, b), n);
  }

  lemma {:induction false} SameShared(f: int -> seq<string>, g: int -> seq<string>, n: nat)
    requires forall t: int :: |f(t)| == |g(t)|
    ensures |Shared(f, n)| == |Shared(g, n)|
  {
    if n > 0 {
      SameShared(f, g, n - 1);
    }
  }

  lemma SameOverlapCount(cal: Calendar, a: seq<CronSchedule>, b: seq<CronSchedule>, n: nat)
    requires AllWellFormed(a) && AllWellFormed(b) && multiset(a) == multiset(b)
    ensures |OverlapsBefore(cal, a, n)| == |OverlapsBefore(cal, b, n)|
  {
    forall t: int ensures |FiringAt(cal, a)(t)| == |FiringAt(cal, b)(t)| {
      SameJobsFire(cal, a, b, t);
    }
    SameShared(FiringAt(cal, a), FiringAt(cal, b), n);
  }

  /** What the script reports on the sorted list is what it would report on the list as written. */
  lemma SortingKeepsVerdict(cal: Calendar, written: seq<CronSchedule>, sorted: seq<CronSchedule>, gap: Option<int>)
    requires AllEveryDate(written) && multiset(sorted) == multiset(written)
    ensures AllWellFormed(sorted)
    ensures OverlapsBefore(cal, sorted, 7 * DAY) == [] <==> NeverClash(written)
    ensures IsMinDistance(FiringBefore(cal, sorted, WEEK), gap)
       <==> IsMinDistance(FiringBefore(cal, written, WEEK), gap)
  {
    assert AllWellFormed(written);
    Reordered(written, sorted);
    SameMinutesFire(cal, sorted, written, WEEK);
    SameOverlapCount(cal, sorted, written, 7 * DAY);
    EmptyScanExactlyWhen(cal, written, 7);
  }

  // ----- the phrase "Every n hours at ..."

  /** The loop variable after k rounds; NaN once a step that is not a number was added. */
  function HourAfter(step: Option<int>, k: nat): Option<int> {
    if k == 0 then Some(0)
    else if step.None? then None
    else Some(k * step.value)
  }

  /** The loop's condition, false of NaN. */
  predicate GoesOn(hour: Option<int>) {
    hour.Some? && hour.value < 24
  }

  ghost predicate HourLoopEnds(step: Option<int>) {
    exists k: nat :: !GoesOn(HourAfter(step, k))
  }

  lemma NeverPositive(step: int, k: nat)
    requires step <= 0
    ensures k * step <= 0
  {
  }

  lemma DayIsOver(step: int)
    requires step > 0
    ensures 24 * step >= 24
  {
  }

  /** The hour loop of the phrase ends exactly when the step is a positive number or none at all. */
  lemma HourLoopEndsExactlyWhen(step: Option<int>)
    ensures HourLoopEnds(step) <==> step.None? || step.value > 0
  {
    if step.None? {
      assert !GoesOn(HourAfter(step, 1));
    } else if step.value > 0 {
      DayIsOver(step.value);
      assert !GoesOn(HourAfter(step, 24));
    } else {
      forall k: nat ensures GoesOn(HourAfter(step, k)) {
        NeverPositive(step.value, k);
      }
    }
  }

  lemma NoneBetween(n: int, d: int)
    requires n > 0 && 0 < n * d
    ensures d >= 1 && n <= n * d
  {
    if d > 1 { assert n * (d - 1) > 0; }
  }

  /** The remainder is known from any way to write the number as multiple and rest. */
  lemma Remainder(x: int, n: int, q: int, r: int)
    requires n > 0 && x == n * q + r && 0 <= r < n
    ensures x % n == r
  {
    var d := x / n - q;
    assert n * d == r - x % n by { assert n * d == n * (x / n) - n * q; }
    if n * d > 0 { NoneBetween(n, d); }
    if n * -d > 0 { NoneBetween(n, -d); }
  }

  lemma NextMultiple(h: int, n: int)
    requires n > 0 && h % n == 0
    ensures (h + n) % n == 0
    ensures forall m :: h < m < h + n ==> m % n != 0
  {
    var q := h / n;
    Remainder(h + n, n, q + 1, 0);
    forall m | h < m < h + n ensures m % n != 0 {
      Remainder(m, n, q, m - h);
    }
  }

  /** From one listed hour to the next. */
  lemma NextListed(h: int, step: Option<int>)
    requires step.Some? && step.value > 0 && DividesOffset(h, step)
    ensures DividesOffset(h + step.value, step)
    ensures forall m :: h < m < h + step.value ==> !DividesOffset(m, step)
  {
    NextMultiple(h, step.value);
  }

  lemma AppendIncreasing(hours: seq<int>, h: int)
    requires Increasing(hours) && forall m :: m in hours ==> m < h
    ensures Increasing(hours + [h])
  {
    assert forall i :: 0 <= i < |hours| ==> hours[i] in hours;
  }

  /** The hours that are listed, when the loop ends. */
  method DescribedHours(step: Option<int>) returns (hours: seq<int>)
    requires HourLoopEnds(step)
    ensures step.None? ==> hours == [0]
    ensures step.Some? ==> forall h :: h in hours <==> 0 <= h < 24 && DividesOffset(h, step)
    ensures Increasing(hours)
  {
    HourLoopEndsExactlyWhen(step);
    if step.None? {
      return [0];
    }
    hours := [];
    var h := 0;
    assert DividesOffset(0, step);
    hide DividesOffset;
    while h < 24
      invariant 0 <= h && DividesOffset(h, step)
      invariant forall m :: m in hours <==> 0 <= m < 24 && m < h && DividesOffset(m, step)
      invariant Increasing(hours)
    {
      NextListed(h, step);
      AppendIncreasing(hours, h);
      hours := hours + [h];
      h := h + step.value;
    }
  }

  lemma StarField(value: int, rest: string)
    requires ',' !in rest && '/' !in rest
    ensures MatchesCronField(value, "*/" + rest) <==> DividesOffset(value, ParseInt(rest))
  {
    SplitOnce("*", rest, '/');
    assert "*" + ['/'] + rest == "*/" + rest;
    hide Split, ParseInt, DividesOffset;
  }

  /** The listed hours are those at which the field fires exactly when its step is a number. */
  lemma DescribedHoursExactlyWhen(rest: string, hours: seq<int>)
    requires ',' !in rest && '/' !in rest && HourLoopEnds(ParseInt(rest))
    requires ParseInt(rest).None? ==> hours == [0]
    requires ParseInt(rest).Some? ==> forall h :: h in hours <==> 0 <= h < 24 && DividesOffset(h, ParseInt(rest))
    ensures (forall h :: 0 <= h < 24 ==> (h in hours <==> MatchesCronField(h, "*/" + rest))) <==> ParseInt(rest).Some?
  {
    forall h: int ensures MatchesCronField(h, "*/" + rest) <==> DividesOffset(h, ParseInt(rest)) {
      StarField(h, rest);
    }
    hide MatchesCronField, ParseInt;
    if ParseInt(rest).None? {
      assert 0 in hours && !DividesOffset(0, ParseInt(rest));
    }
  }
}
