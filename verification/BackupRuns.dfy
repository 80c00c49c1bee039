/**
 * A whole run: the tenants one after the other, and phase C, the purges of whole
 * environments.
 */
module BackupRuns {
  import opened Wrappers
  import opened ObjectBackup
  import opened BackupCalls
  import opened BackupQueues
  import opened BackupVisits

  // ----- phase C

  /** How many of the first n spans have no failing call. */
  ghost function CleanSpans(env: Environment, at: seq<nat>, n: nat): nat
    requires n < |at|
  {
    if n == 0 then 0 else CleanSpans(env, at, n - 1) + if env.AllOk(at[n - 1], at[n]) then 1 else 0
  }

  /** Consecutive spans from a to b. */
  ghost predicate Spans(at: seq<nat>, a: nat, b: nat) {
    && at != [] && at[0] == a && at[|at| - 1] == b
    && (forall i :: 0 < i < |at| ==> at[i - 1] < at[i])
  }

  /**
   * Phase C from tick a to b: a query, then the due environments one after the other,
   * until the lock is lost or an attempt cannot be counted; at says where each begins.
   */
  ghost predicate PhaseCRan(env: Environment, a: nat, was: bool, b: nat, due: seq<string>, at: seq<nat>,
                            result: Option<(nat, nat)>)
  {
    if !env.Ok(a) then result.None? && b == a + 1 && due == [] && at == [a + 1]
    else
      && PhaseCTried(env, a, was, b, at, result) && |at| - 1 <= |due|
      && (result.Some? && |at| - 1 < |due| ==> was || env.LostIn(a, b))
  }

  /** The purges tried from a to b, none but the last giving up; the result counts those done and failed. */
  ghost predicate PhaseCTried(env: Environment, a: nat, was: bool, b: nat, at: seq<nat>, result: Option<(nat, nat)>) {
    && Spans(at, a + 1, b)
    && (forall i :: 0 <= i < |at| - 1 ==> !was && !env.LostIn(a, at[i]))
    && (forall i :: 0 <= i < |at| - 2 ==> !GivesUp(env, at[i], at[i + 1]))
    && (result.None? <==> |at| > 1 && GivesUp(env, at[|at| - 2], b))
    && (result.Some? ==>
          && result.value.0 == CleanSpans(env, at, |at| - 1)
          && result.value.0 + result.value.1 == |at| - 1)
  }

  lemma NothingTried(env: Environment, a: nat, was: bool)
    ensures PhaseCTried(env, a, was, a + 1, [a + 1], Some((0, 0)))
  {
  }

  lemma NextTried(env: Environment, a: nat, was: bool, b: nat, c: nat, at: seq<nat>, purged: nat, failed: nat)
    requires PhaseCTried(env, a, was, b, at, Some((purged, failed))) && !was && !env.LostIn(a, b) && b < c
    ensures PhaseCTried(env, a, was, c, at + [c],
                        if env.AllOk(b, c) then Some((purged + 1, failed))
                        else if env.Ok(c - 1) then Some((purged, failed + 1)) else None)
  {
    hide Environment.LostIn, Environment.AllOk;
    var next := at + [c];
    var n := |at| - 1;
    CleanSpansPrefix(env, at, c, n);
    assert forall i :: 0 <= i <= n ==> next[i] == at[i];
    forall i | 0 <= i < n ensures !GivesUp(env, next[i], next[i + 1]) {
      if i == n - 1 { assert !GivesUp(env, at[n - 1], b); }
    }
  }

  /** The purges that the query returns. */
  ghost predicate ChosenPurges(s: Durable, now: int, limit: nat, due: seq<string>) {
    && Distinct(due) && |due| == Min(limit, |DuePurges(s, now)|) && Ids(due) <= DuePurges(s, now)
    && OldestFirst(due, DuePurges(s, now), PurgeAge(s))
  }

  lemma PurgesChosen(s: Durable, now: int, limit: nat, due: seq<string>)
    requires |due| == Min(limit, |DuePurges(s, now)|) && Distinct(due)
    requires forall x :: x in due ==> x in DuePurges(s, now)
    requires OldestFirst(due, DuePurges(s, now), PurgeAge(s))
    ensures ChosenPurges(s, now, limit, due) && forall j :: 0 <= j < |due| ==> due[j] in s.purges
  {
    forall j | 0 <= j < |due| ensures due[j] in s.purges { assert due[j] in DuePurges(s, now); }
  }

  /** The purges that have been due for longest go first. */
  lemma LongestDuePurgesChosen(s: Durable, now: int, limit: nat, due: seq<string>, i: nat, gone: string)
    requires ChosenPurges(s, now, limit, due) && i < |due| && gone in DuePurges(s, now) && gone !in due
    ensures due[i] in s.purges && s.purges[due[i]].deleteAfter <= s.purges[gone].deleteAfter <= now
  {
    hide OldestFirst;
    assert due[i] in Ids(due);
    OldestChosen(due, DuePurges(s, now), PurgeAge(s), i, gone);
  }

  lemma GrowsKeepsPurges(listing: Listing, s: Durable, s': Durable)
    requires Grows(listing, s, s')
    ensures s.purges.Keys <= s'.purges.Keys
  {
  }

  /** The purge failed, and so did the last of its calls, which was to count the attempt. */
  ghost predicate GivesUp(env: Environment, a: nat, b: nat) {
    a < b && !env.AllOk(a, b) && !env.Ok(b - 1)
  }

  /**
   * What became of the queue: the purges that were tried without a failing call are
   * gone, the others have one attempt more if the last call took effect, and those
   * that were not tried are as they were.
   */
  ghost predicate PurgesWorked(env: Environment, before: map<string, Purge>, after: map<string, Purge>,
                               due: seq<string>, at: seq<nat>)
  {
    && 0 < |at| <= |due| + 1 && after.Keys <= before.Keys
    && (forall i :: 0 <= i < |at| - 1 ==> PurgeWorked(env, before, after, due, at, i))
    && (forall gone :: gone in before && gone !in due[..|at| - 1] ==> gone in after && after[gone] == before[gone])
  }

  ghost predicate PurgeWorked(env: Environment, before: map<string, Purge>, after: map<string, Purge>,
                              due: seq<string>, at: seq<nat>, i: nat)
    requires i < |at| - 1 <= |due|
  {
    && (env.AllOk(at[i], at[i + 1]) ==> due[i] !in after)
    && (due[i] in after ==> Counted(env, before, after, due[i], at[i + 1]))
  }

  /** One attempt more if the call before b took effect. */
  ghost predicate Counted(env: Environment, before: map<string, Purge>, after: map<string, Purge>, gone: string,
                          b: nat)
  {
    && gone in before && gone in after && b > 0
    && after[gone] == before[gone].(attempts := before[gone].attempts + if env.Took(b - 1) then 1 else 0)
  }

  /** One purge has been tried, from a to b: gone if no call failed, otherwise counted, and no other touched. */
  ghost predicate OnePurgeWorked(env: Environment, before: map<string, Purge>, after: map<string, Purge>, gone: string,
                                 a: nat, b: nat)
  {
    && gone in before && after.Keys <= before.Keys && (env.AllOk(a, b) ==> gone !in after)
    && (forall other :: other in before && other != gone ==> other in after && after[other] == before[other])
    && (gone in after ==> Counted(env, before, after, gone, b))
  }

  lemma DropWorked(env: Environment, p: map<string, Purge>, gone: string, a: nat, b: nat)
    requires gone in p
    ensures OnePurgeWorked(env, p, p - {gone}, gone, a, b)
  {
  }

  /** The attempt is counted, unless the purge was dropped after all. */
  lemma BumpWorked(env: Environment, s: Durable, p: map<string, Purge>, gone: string, a: nat, b: nat)
    requires gone in p && (s.purges == p || s.purges == p - {gone}) && b > 0 && !env.AllOk(a, b)
    ensures OnePurgeWorked(env, p, (if env.Took(b - 1) then Apply(s, BumpPurge(gone)) else s).purges, gone, a, b)
  {
    hide Environment.AllOk;
  }

  lemma WorkedBefore(env: Environment, p0: map<string, Purge>, p1: map<string, Purge>, p2: map<string, Purge>,
                     due: seq<string>, at: seq<nat>, b: nat, i: nat)
    requires i < |at| - 1 < |due| && PurgeWorked(env, p0, p1, due, at, i) && due[i] != due[|at| - 1]
    requires OnePurgeWorked(env, p1, p2, due[|at| - 1], at[|at| - 1], b)
    ensures PurgeWorked(env, p0, p2, due, at + [b], i)
  {
    hide Environment.AllOk;
    assert (at + [b])[i] == at[i] && (at + [b])[i + 1] == at[i + 1];
  }

  lemma PurgesWorkedNext(env: Environment, p0: map<string, Purge>, p1: map<string, Purge>, p2: map<string, Purge>,
                         due: seq<string>, at: seq<nat>, b: nat)
    requires PurgesWorked(env, p0, p1, due, at) && Distinct(due) && |at| <= |due| && at[|at| - 1] <= b
    requires OnePurgeWorked(env, p1, p2, due[|at| - 1], at[|at| - 1], b)
    ensures PurgesWorked(env, p0, p2, due, at + [b])
  {
    hide Environment.AllOk;
    var n := |at| - 1;
    var next := at + [b];
    assert due[..n + 1] == due[..n] + [due[n]];
    assert due[n] !in due[..n];
    assert next[n] == at[n] && next[n + 1] == b;
    forall i | 0 <= i < |next| - 1 ensures PurgeWorked(env, p0, p2, due, next, i) {
      if i < n { WorkedBefore(env, p0, p1, p2, due, at, b, i); }
    }
  }

  lemma NoPurgesWorked(env: Environment, p: map<string, Purge>, due: seq<string>, a: nat)
    ensures PurgesWorked(env, p, p, due, [a])
  {
  }

  lemma {:induction false} CleanSpansPrefix(env: Environment, at: seq<nat>, c: nat, n: nat)
    requires n < |at|
    ensures CleanSpans(env, at + [c], n) == CleanSpans(env, at, n)
  {
    if n > 0 {
      CleanSpansPrefix(env, at, c, n - 1);
    }
  }

  lemma AllWorkedClean(env: Environment, before: map<string, Purge>, after: map<string, Purge>, due: seq<string>,
                       at: seq<nat>)
    requires PurgesWorked(env, before, after, due, at) && |at| == |due| + 1
    requires forall i :: 0 <= i < |due| ==> env.AllOk(at[i], at[i + 1])
    ensures forall gone :: gone in after <==> gone in before && gone !in Ids(due)
    ensures forall gone :: gone in after ==> after[gone] == before[gone]
  {
    hide Environment.AllOk;
    assert due[..|at| - 1] == due;
    forall i | 0 <= i < |due| ensures due[i] !in after {
      assert PurgeWorked(env, before, after, due, at, i) && env.AllOk(at[i], at[i + 1]);
    }
  }

  /** Without a failing call all the purges that were selected are gone. */
  lemma {:induction false} AllSpansClean(env: Environment, at: seq<nat>, a: nat, b: nat, n: nat)
    requires Spans(at, a, b) && n < |at| && env.AllOk(a, b)
    ensures CleanSpans(env, at, n) == n
    ensures forall i :: 0 <= i < n ==> env.AllOk(at[i], at[i + 1])
  {
    if n > 0 {
      AllSpansClean(env, at, a, b, n - 1);
      SpansInOrder(at, a, b, n - 1);
      SpansInOrder(at, a, b, n);
    }
  }

  lemma {:induction false} SpansInOrder(at: seq<nat>, a: nat, b: nat, i: nat)
    requires Spans(at, a, b) && i < |at|
    ensures a <= at[i] <= b
    decreases |at|
  {
    if i < |at| - 1 {
      var n := |at| - 1;
      assert Spans(at[..n], a, at[n - 1]);
      SpansInOrder(at[..n], a, at[n - 1], i);
    } else {
      SpansFrom(at, a, b);
    }
  }

  lemma {:induction false} SpansFrom(at: seq<nat>, a: nat, b: nat)
    requires Spans(at, a, b)
    ensures a <= b
    decreases |at|
  {
    if |at| > 1 {
      var n := |at| - 1;
      assert Spans(at[..n], a, at[n - 1]);
      SpansFrom(at[..n], a, at[n - 1]);
    }
  }

  lemma PurgesAllGone(env: Environment, s: Durable, s': Durable, due: seq<string>, at: seq<nat>, a: nat, b: nat,
                      now: int, limit: nat)
    requires Distinct(due) && |due| == Min(limit, |DuePurges(s, now)|) && Ids(due) <= DuePurges(s, now)
    requires PurgesWorked(env, s.purges, s'.purges, due, at) && Spans(at, a, b) && env.AllOk(a, b) && |at| == |due| + 1
    ensures BatchDone(DuePurges(s, now), DuePurges(s', now), limit)
    ensures CleanSpans(env, at, |due|) == |due|
  {
    hide PurgesWorked, Spans, CleanSpans, Environment.AllOk, Distinct, BatchDone;
    AllSpansClean(env, at, a, b, |due|);
    AllWorkedClean(env, s.purges, s'.purges, due, at);
    assert DuePurges(s', now) == DuePurges(s, now) - Ids(due);
    IdsSize(due);
    Removed(DuePurges(s, now), Ids(due), |due|, limit);
  }

  // ----- a whole run

  datatype Totals = Totals(
    copied: nat, bytes: nat, failed: nat, purged: nat,
    tenantsOk: nat, tenantsFailed: nat, envsPurged: nat, envsFailed: nat)

  /** The visit of a tenant: the calls it took, what was done by them, and what was counted. */
  datatype Visit = Visit(tenant: string, from: nat, to: nat, did: TenantVisit, stats: Option<Stats>)
  {
    ghost predicate Ran(env: Environment) {
      did.Ordered() && TenantRan(env, from, false, to, did, stats)
    }
  }

  function WithTenant(t: Totals, stats: Option<Stats>): Totals {
    match stats
    case Some(st) =>
      t.(copied := t.copied + st.copied, bytes := t.bytes + st.bytes, failed := t.failed + st.failed,
         purged := t.purged + st.purged, tenantsOk := t.tenantsOk + 1)
    case None => t.(tenantsFailed := t.tenantsFailed + 1)
  }

  /** The visits add up to these totals. */
  function Added(visits: seq<Visit>): (t: Totals)
    ensures t.tenantsOk + t.tenantsFailed == |visits|
  {
    if visits == [] then Totals(0, 0, 0, 0, 0, 0, 0, 0)
    else WithTenant(Added(visits[..|visits| - 1]), visits[|visits| - 1].stats)
  }

  ghost predicate Follow(visits: seq<Visit>, a: nat, b: nat) {
    if visits == [] then a == b
    else
      var v := visits[|visits| - 1];
      a <= v.from < v.to == b && Follow(visits[..|visits| - 1], a, v.from)
  }

  function Tenants(visits: seq<Visit>): set<string> {
    set v | v in visits :: v.tenant
  }

  ghost predicate DistinctVisits(visits: seq<Visit>) {
    forall i, j :: 0 <= i < j < |visits| ==> visits[i].tenant != visits[j].tenant
  }

  /** The tenants whose own calls all returned, with nobody else acting and the lock held. */
  ghost function FineTenants(env: Environment, visits: seq<Visit>): set<string> {
    set v | v in visits && env.Fine(v.from, v.to) :: v.tenant
  }

  /**
   * The tenants are visited one after the other, each once and whatever becomes of
   * the others: all of them, unless the lock is lost on the way, and none after that.
   */
  ghost predicate VisitsTenants(env: Environment, a: nat, b: nat, live: set<string>, visits: seq<Visit>) {
    && Follow(visits, a + 1, b) && DistinctVisits(visits) && Tenants(visits) <= live
    && (forall v :: v in visits ==> !env.LostIn(a, v.from) && v.Ran(env))
    && (Tenants(visits) != live ==> env.LostIn(a, b))
  }

  lemma VisitsCount(visits: seq<Visit>)
    requires DistinctVisits(visits)
    ensures |Tenants(visits)| == |visits|
  {
    if visits != [] {
      var n := |visits| - 1;
      VisitsCount(visits[..n]);
      assert visits == visits[..n] + [visits[n]];
      assert Tenants(visits) == Tenants(visits[..n]) + {visits[n].tenant};
    }
  }

  /** What a run did: the tenants it enumerated and visited, where phase C began, and what that tried. */
  datatype RunRecord = RunRecord(live: set<string>, visits: seq<Visit>, mid: nat, due: seq<string>, at: seq<nat>)

  const NoRun := RunRecord({}, [], 0, [], [])

  /**
   * The calls of a run from tick a to b: the tenants are enumerated and visited, and
   * then, unless the lock has been lost, phase C follows; the totals add up.
   */
  ghost predicate RunRan(env: Environment, a: nat, b: nat, r: RunRecord, totals: Option<Totals>) {
    if !env.Ok(a) then totals.None? && b == a + 1
    else
      && VisitsTenants(env, a, r.mid, r.live, r.visits)
      && if env.LostIn(a, r.mid) then b == r.mid && totals == Some(Added(r.visits))
         else
           && PhaseCRan(env, r.mid, false, b, r.due, r.at,
                        if totals.None? then None else Some((totals.value.envsPurged, totals.value.envsFailed)))
           && (totals.Some? ==>
                 totals.value == Added(r.visits).(envsPurged := totals.value.envsPurged,
                                                  envsFailed := totals.value.envsFailed))
  }

  /**
   * A run that keeps its lock visits every tenant, whatever fails, and each is counted
   * as done or as failed; phase C follows, and it ends early only when its query
   * throws or an attempt cannot be counted.
   */
  lemma EveryTenantVisited(env: Environment, a: nat, b: nat, r: RunRecord, totals: Option<Totals>)
    requires RunRan(env, a, b, r, totals) && env.Ok(a) && !env.LostIn(a, b)
    ensures Tenants(r.visits) == r.live
    ensures Added(r.visits).tenantsOk + Added(r.visits).tenantsFailed == |r.live|
    ensures totals.Some? ==> totals.value.tenantsOk + totals.value.tenantsFailed == |r.live|
    ensures a < r.mid < b
    ensures totals.None? <==> !env.Ok(r.mid) || (|r.at| > 1 && GivesUp(env, r.at[|r.at| - 2], b))
    ensures totals.Some? ==> |r.at| == |r.due| + 1 && totals.value.envsPurged + totals.value.envsFailed == |r.due|
  {
    hide Added, Follow, DistinctVisits, CleanSpans, Environment.AllOk, Environment.LostIn;
    FollowFrom(r.visits, a + 1, r.mid);
    VisitsCount(r.visits);
    if !env.LostIn(a, r.mid) {
      if env.Ok(r.mid) { SpansFrom(r.at, r.mid + 1, b); }
      env.Joined(a, r.mid, b);
    }
  }

  lemma OneMoreVisit(env: Environment, visits: seq<Visit>, visit: Visit, a: nat, b: nat)
    requires Follow(visits, a, b) && DistinctVisits(visits) && visit.tenant !in Tenants(visits)
    requires a <= b == visit.from < visit.to
    ensures Follow(visits + [visit], a, visit.to) && DistinctVisits(visits + [visit])
    ensures Tenants(visits + [visit]) == Tenants(visits) + {visit.tenant}
    ensures var fine := FineTenants(env, visits);
            FineTenants(env, visits + [visit])
            == if env.Fine(visit.from, visit.to) then fine + {visit.tenant} else fine
    ensures Added(visits + [visit]) == WithTenant(Added(visits), visit.stats)
  {
    var next := visits + [visit];
    assert next[..|next| - 1] == visits;
    forall i | 0 <= i < |visits| ensures visits[i].tenant != visit.tenant { assert visits[i] in visits; }
  }

  lemma OnlyTenantKeeps(s: Durable, s': Durable, tenant: string)
    requires OnlyTenant(s, s', tenant)
    ensures s'.live == s.live && s'.purges == s.purges
  {
  }

  lemma FollowFrom(visits: seq<Visit>, a: nat, b: nat)
    requires Follow(visits, a, b)
    ensures a <= b && forall v :: v in visits ==> a <= v.from < v.to <= b
  {
    if visits != [] {
      var n := |visits| - 1;
      FollowFrom(visits[..n], a, visits[n].from);
      assert visits == visits[..n] + [visits[n]];
    }
  }

  lemma FineVisits(env: Environment, a: nat, b: nat, live: set<string>, visits: seq<Visit>)
    requires VisitsTenants(env, a, b, live, visits) && env.Fine(a, b)
    ensures FineTenants(env, visits) == live && |visits| == |live|
  {
    FollowFrom(visits, a + 1, b);
    VisitsCount(visits);
    forall v | v in visits ensures env.Fine(v.from, v.to) {
      env.Joined(a, v.from, b);
      env.Joined(v.from, v.to, b);
    }
    assert FineTenants(env, visits) == Tenants(visits);
  }

  lemma FinePhaseC(env: Environment, s: Durable, s': Durable, a: nat, b: nat, due: seq<string>, at: seq<nat>,
                   result: Option<(nat, nat)>, now: int, limit: nat)
    requires PhaseCRan(env, a, false, b, due, at, result) && env.Fine(a, b) && a < b
    requires PurgesWorked(env, s.purges, s'.purges, due, at)
    requires ChosenPurges(s, now, limit, due)
    ensures result.Some? && BatchDone(DuePurges(s, now), DuePurges(s', now), limit)
  {
    hide PurgesWorked, Spans, Distinct, CleanSpans, DuePurges, OldestFirst;
    assert env.Ok(a);
    env.Joined(a, a + 1, b);
    if result.Some? {
      PurgesAllGone(env, s, s', due, at, a + 1, b, now, limit);
    }
  }

  /** The loop over the tenants, up to b: what has been visited, what the totals are, and what became of the queues. */
  ghost predicate TenantsVisited(env: Environment, s: Durable, s': Durable, a: nat, b: nat, live: set<string>,
                                 visits: seq<Visit>, clock: Clock, limit: nat, t: Totals)
  {
    && Follow(visits, a + 1, b) && DistinctVisits(visits) && Tenants(visits) <= live && t == Added(visits)
    && (forall v :: v in visits ==> !env.LostIn(a, v.from) && v.Ran(env))
    && (env.Calm(a + 1, b) ==>
          && s'.live == s.live && s'.purges == s.purges
          && (live == s.live ==> RunProgress(s, s', live - Tenants(visits), FineTenants(env, visits), clock, limit)))
    && (env.Fine(a + 1, b) ==> NothingFailed(s, s', t))
  }

  lemma NoTenantVisited(env: Environment, s: Durable, a: nat, live: set<string>, clock: Clock, limit: nat)
    ensures TenantsVisited(env, s, s, a, a + 1, live, [], clock, limit, Added([])) && Tenants([]) == {}
  {
    NoProgressYet(s, clock, limit);
    assert Tenants([]) == {} && FineTenants(env, []) == {};
    if live == s.live { assert live - {} == s.live; }
  }

  lemma OneMoreTenant(env: Environment, s: Durable, s1: Durable, s2: Durable, a: nat, b: nat, c: nat,
                      live: set<string>, visits: seq<Visit>, clock: Clock, limit: nat, t: Totals, tenant: string,
                      v: TenantVisit, stats: Option<Stats>)
    requires TenantsVisited(env, s, s1, a, b, live, visits, clock, limit, t) && tenant in live - Tenants(visits)
    requires a < b < c && !env.LostIn(a, b) && TenantRan(env, b, false, c, v, stats) && v.Ordered()
    requires env.Calm(b, c) ==>
               TenantWorked(env, tenant, s1, s2, b, v) && TenantChosen(env, s1, tenant, clock(tenant), limit, v)
    ensures TenantsVisited(env, s, s2, a, c, live, visits + [Visit(tenant, b, c, v, stats)], clock, limit,
                           WithTenant(t, stats))
    ensures Tenants(visits + [Visit(tenant, b, c, v, stats)]) == Tenants(visits) + {tenant}
  {
    hide RunProgress, TenantProgress, SameQueues, TenantRan, TenantWorked, TenantChosen, OnlyTenant, Follow;
    hide DistinctVisits, Tenants, FineTenants, Added, Environment.LostIn, Environment.AllOk, Environment.Calm;
    env.Joined(a + 1, b, c);
    FineTenantsVisited(env, visits);
    OneMoreVisit(env, visits, Visit(tenant, b, c, v, stats), a + 1, b);
    if env.Calm(b, c) {
      WorkedOnlyTenant(env, tenant, s1, s2, b, v);
      OnlyTenantKeeps(s1, s2, tenant);
      OnlyTenantQueues(s1, s2, tenant);
      if env.Fine(b, c) { FineTenant(env, tenant, clock(tenant), limit, s1, s2, b, c, v, stats); }
      if env.Calm(a + 1, b) && live == s.live {
        RunStep(s, s1, s2, live - Tenants(visits), FineTenants(env, visits), tenant, env.Fine(b, c), clock, limit);
        assert live - (Tenants(visits) + {tenant}) == live - Tenants(visits) - {tenant};
      }
    }
  }

  lemma FineTenantsVisited(env: Environment, visits: seq<Visit>)
    ensures FineTenants(env, visits) <= Tenants(visits)
  {
  }

  lemma AreVisited(env: Environment, s: Durable, s': Durable, a: nat, b: nat, live: set<string>, visits: seq<Visit>,
                   clock: Clock, limit: nat, t: Totals)
    requires TenantsVisited(env, s, s', a, b, live, visits, clock, limit, t)
    requires live - Tenants(visits) != {} ==> env.LostIn(a, b)
    ensures VisitsTenants(env, a, b, live, visits)
  {
    hide Follow, DistinctVisits, Tenants, Environment.LostIn, Environment.Calm, Environment.Fine, RunProgress, Added;
    if live - Tenants(visits) == {} {
      assert forall tenant :: tenant in live ==> tenant in Tenants(visits) || tenant in live - Tenants(visits);
    }
  }

  lemma VisitedIsAdded(env: Environment, a: nat, r: RunRecord, s: Durable, s': Durable, clock: Clock, limit: nat,
                       t: Totals)
    requires TenantsVisited(env, s, s', a, r.mid, r.live, r.visits, clock, limit, t)
    ensures t == Added(r.visits)
  {
  }

  // ----- what a run comes to, when the application did nothing meanwhile

  /**
   * Tenants that were not visited are as they were, those whose own calls all returned
   * have lost a batch of each queue, and so has the queue of purges as far as it was
   * worked on.
   */
  ghost predicate RunWorked(env: Environment, a: nat, r: RunRecord, s: Durable, s': Durable, clock: Clock,
                            purgesAt: int, limit: nat)
  {
    && r.live == s.live == s'.live
    && RunProgress(s, s', r.live - Tenants(r.visits), FineTenants(env, r.visits), clock, limit)
    && (env.Fine(a + 1, r.mid) ==> NothingFailed(s, s', Added(r.visits)))
    && if env.LostIn(a, r.mid) then s'.purges == s.purges
       else
         && PurgesWorked(env, s.purges, s'.purges, r.due, r.at)
         && (env.Ok(r.mid) ==> ChosenPurges(s, purgesAt, limit, r.due))
  }

  /** Each object copied is a column marked. */
  ghost predicate NothingFailed(s: Durable, s': Durable, t: Totals) {
    t.failed == 0 && t.tenantsFailed == 0 && t.copied == |s'.backed| - |s.backed|
  }

  /** Every queue of every tenant, and the queue of purges, has lost one batch. */
  ghost predicate RunDone(s: Durable, s': Durable, clock: Clock, purgesAt: int, limit: nat, totals: Option<Totals>) {
    && s'.live == s.live && totals.Some? && NothingFailed(s, s', totals.value)
    && totals.value.tenantsOk == |s.live|
    && (forall tenant :: tenant in s.live ==> TenantProgress(s, s', tenant, clock(tenant), limit))
    && BatchDone(DuePurges(s, purgesAt), DuePurges(s', purgesAt), limit)
  }

  lemma WorkedUntilLost(env: Environment, a: nat, r: RunRecord, s: Durable, s': Durable, clock: Clock, purgesAt: int,
                        limit: nat, t: Totals)
    requires TenantsVisited(env, s, s', a, r.mid, r.live, r.visits, clock, limit, t) && r.live == s.live
    requires env.Calm(a + 1, r.mid) && env.LostIn(a, r.mid)
    ensures RunWorked(env, a, r, s, s', clock, purgesAt, limit)
  {
    hide RunProgress, Tenants, FineTenants, Added, Follow, DistinctVisits, Environment.LostIn;
  }

  lemma WorkedToEnd(env: Environment, a: nat, r: RunRecord, s: Durable, s1: Durable, s2: Durable, clock: Clock,
                    purgesAt: int, limit: nat, t: Totals)
    requires TenantsVisited(env, s, s1, a, r.mid, r.live, r.visits, clock, limit, t) && r.live == s.live
    requires env.Calm(a + 1, r.mid) && !env.LostIn(a, r.mid)
    requires s2 == s1.(dest := s2.dest, purges := s2.purges) && PurgesWorked(env, s1.purges, s2.purges, r.due, r.at)
    requires env.Ok(r.mid) ==> ChosenPurges(s1, purgesAt, limit, r.due)
    ensures RunWorked(env, a, r, s, s2, clock, purgesAt, limit)
  {
    hide RunProgress, Tenants, FineTenants, Added, Follow, DistinctVisits, PurgesWorked, ChosenPurges;
    hide Environment.LostIn;
    PurgesApart(s, s1, s2, r.live - Tenants(r.visits), FineTenants(env, r.visits), clock, limit);
    if env.Ok(r.mid) { SameChosenPurges(s, s1, purgesAt, limit, r.due); }
  }

  lemma SameChosenPurges(s: Durable, s1: Durable, now: int, limit: nat, due: seq<string>)
    requires s1.purges == s.purges && ChosenPurges(s1, now, limit, due)
    ensures ChosenPurges(s, now, limit, due)
  {
    hide OldestFirst;
    assert DuePurges(s1, now) == DuePurges(s, now);
    OldestFirstSame(due, DuePurges(s, now), PurgeAge(s1), PurgeAge(s));
  }

  /** A run in which nothing fails takes one batch off every queue. */
  lemma RunIsDone(env: Environment, a: nat, b: nat, r: RunRecord, s: Durable, s': Durable, clock: Clock, purgesAt: int,
                  limit: nat, totals: Option<Totals>)
    requires RunRan(env, a, b, r, totals) && env.Ok(a) && env.Fine(a, b)
    requires RunWorked(env, a, r, s, s', clock, purgesAt, limit)
    ensures RunDone(s, s', clock, purgesAt, limit, totals)
  {
    hide TenantProgress, SameQueues, BatchDone, PurgesWorked, ChosenPurges, Tenants, FineTenants, Added, DuePurges;
    hide Follow, DistinctVisits, CleanSpans, Spans, GivesUp, Environment.AllOk, Environment.LostIn, Environment.Calm;
    EveryTenantVisited(env, a, b, r, totals);
    env.Joined(a, r.mid, b);
    env.Joined(a, a + 1, r.mid);
    env.FirstIsOk(r.mid, b);
    var result := if totals.None? then None else Some((totals.value.envsPurged, totals.value.envsFailed));
    FinePhaseC(env, s, s', r.mid, b, r.due, r.at, result, purgesAt, limit);
    FineVisits(env, a, r.mid, r.live, r.visits);
  }
}
