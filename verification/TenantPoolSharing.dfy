/**
 * What callers of the pool share.  As long as no tenant is evicted during its own
 * creation there is one creation per tenant and one db for all who overlap with it;
 * an eviction during a creation always breaks that.
 */
module TenantPoolSharing {
  import opened Wrappers
  import opened TenantPool
  import opened TenantPoolRuns
  import opened TenantPoolClients

  /** `evictTenantDB` is called for a tenant whose creation has not been settled. */
  predicate EvictsOwnCreation(s: Pool, e: Event) {
    e.Evict? && exists k :: k in s.calls && s.calls[k].tenant == e.tenant
  }

  predicate FailsPragmas(e: Event) {
    e.Configure? && !e.ok
  }

  ghost predicate Undisturbed(cfg: Config, evs: seq<Event>)
    requires Run(cfg, evs).Some?
  {
    evs == [] || (Undisturbed(cfg, evs[..|evs| - 1])
                  && !EvictsOwnCreation(Run(cfg, evs[..|evs| - 1]).value, evs[|evs| - 1]))
  }

  ghost predicate InflightOk(calls: map<nat, Call>, inflight: map<string, nat>) {
    && (forall t :: t in inflight ==> inflight[t] in calls && calls[inflight[t]].tenant == t)
    && (forall k :: k in calls ==> calls[k].tenant in inflight && inflight[calls[k].tenant] == k)
  }

  ghost predicate MappedByOwnCall(calls: map<nat, Call>, c: seq<Connection>) {
    forall k, x :: k in calls && x in c && x.id == calls[k].tenant ==> calls[k].phase == Returned(x.client)
  }

  ghost predicate ReturnedOrClosed(calls: map<nat, Call>, c: seq<Connection>, closed: seq<nat>) {
    forall k :: k in calls && calls[k].phase.Returned? ==>
      TenantIn(c, calls[k].tenant) || calls[k].phase.client in closed
  }

  ghost predicate MigratingUnmigrated(calls: map<nat, Call>, migrated: set<string>) {
    forall k :: k in calls && calls[k].phase.Migrating? ==> calls[k].tenant !in migrated
  }

  ghost predicate SharingInv(s: Pool) {
    && InflightOk(s.calls, s.inflight)
    && MappedByOwnCall(s.calls, s.connections)
    && ReturnedOrClosed(s.calls, s.connections, s.closed)
    && MigratingUnmigrated(s.calls, s.migrated)
  }

  lemma GetSharing(cfg: Config, s: Pool, t: string, now: int)
    requires Inv(s) && SharingInv(s)
    ensures SharingInv(GetStep(cfg, s, t, now))
  {
    match AnswerOf(s, t)
    case Hit(_) => TouchSharing(s, t, now);
    case Created(_) =>
      if |s.connections| >= cfg.maxConnections && s.connections != [] {
        DropSharing(s, s.connections[OldestIndex(s.connections)]);
      }
      AdmitSharing(EvictOldest(cfg, s), t);
    case _ =>
  }

  lemma AdmitSharing(s: Pool, t: string)
    requires SharingInv(s) && s.nextCall !in s.calls && !MappedTenant(s, t) && t !in s.inflight
    ensures SharingInv(Admit(s, t))
  {
  }

  lemma TouchMembers(c: seq<Connection>, t: string, now: int)
    ensures forall x :: x in Touch(c, t, now) ==> exists y :: y in c && y.id == x.id && y.client == x.client
    ensures forall u :: TenantIn(c, u) ==> TenantIn(Touch(c, t, now), u)
  {
    var r := Touch(c, t, now);
    forall x | x in r ensures exists y :: y in c && y.id == x.id && y.client == x.client {
      var i :| 0 <= i < |r| && r[i] == x;
      assert c[i] in c;
    }
    forall u | TenantIn(c, u) ensures TenantIn(r, u) {
      var i :| 0 <= i < |c| && c[i].id == u;
      assert r[i] in r;
    }
  }

  lemma TouchSharing(s: Pool, t: string, now: int)
    requires SharingInv(s)
    ensures SharingInv(s.(connections := Touch(s.connections, t, now)))
  {
    TouchMembers(s.connections, t, now);
    var c, r := s.connections, Touch(s.connections, t, now);
    forall k, x | k in s.calls && x in r && x.id == s.calls[k].tenant
      ensures s.calls[k].phase == Returned(x.client)
    {
      var y :| y in c && y.id == x.id && y.client == x.client;
    }
  }

  lemma DropSharing(s: Pool, x: Connection)
    requires Inv(s) && SharingInv(s) && x in s.connections
    ensures SharingInv(s.(connections := Delete(s.connections, x.id), closed := s.closed + [x.client]))
  {
    forall t | TenantIn(s.connections, t) && t != x.id ensures TenantIn(Delete(s.connections, x.id), t) {
      var y :| y in s.connections && y.id == t;
      assert y in Delete(s.connections, x.id);
    }
  }

  lemma SweepSharing(s: Pool, now: int)
    requires Inv(s) && SharingInv(s)
    ensures SharingInv(SweepStep(s, now))
  {
    FreshInjective(s.connections, now);
    forall k | k in s.calls && s.calls[k].phase.Returned? && TenantIn(s.connections, s.calls[k].tenant)
      ensures TenantIn(KeepFresh(s.connections, now), s.calls[k].tenant)
           || s.calls[k].phase.client in SweepStep(s, now).closed
    {
      var x :| x in s.connections && x.id == s.calls[k].tenant;
      assert x in KeepFresh(s.connections, now) || x.client in StaleClients(s.connections, now);
    }
  }

  lemma PutKeeps(c: seq<Connection>, conn: Connection)
    requires Injective(c) && forall x :: x in c ==> x.client != conn.client
    ensures forall x :: x in Put(c, conn) <==> x == conn || (x in c && x.id != conn.id)
    ensures forall t :: TenantIn(Put(c, conn), t) <==> t == conn.id || TenantIn(c, t)
  {
    PutInjective(c, conn);
    forall t | TenantIn(c, t) && t != conn.id ensures TenantIn(Put(c, conn), t) {
      var x :| x in c && x.id == t;
      assert x in Put(c, conn);
    }
  }

  lemma CompleteSharing(s: Pool, k: nat, now: int)
    requires Inv(s) && SharingInv(s) && k in s.calls && OwnsClient(s.calls[k].phase)
    ensures SharingInv(Complete(s, k, s.calls[k].phase.client, now))
  {
    var conn := Connection(s.calls[k].tenant, s.calls[k].phase.client, now);
    var s' := Complete(s, k, conn.client, now);
    PutKeeps(s.connections, conn);
    forall l, x | l in s'.calls && x in s'.connections && x.id == s'.calls[l].tenant
      ensures s'.calls[l].phase == Returned(x.client)
    {
      if x == conn {
        assert s.inflight[conn.id] == k == l;
      } else {
        assert x in s.connections && l != k;
      }
    }
  }

  lemma FailSharing(s: Pool, k: nat, closed: seq<nat>)
    requires SharingInv(s) && k in s.calls && OwnsClient(s.calls[k].phase)
    requires forall c :: c in s.closed ==> c in closed
    ensures SharingInv(s.(calls := s.calls[k := Call(s.calls[k].tenant, Failed)], closed := closed))
  {
  }

  lemma ResolveSharing(s: Pool, k: nat, ok: bool)
    requires SharingInv(s) && k in s.calls && s.calls[k].phase.Resolving?
    ensures SharingInv(ResolveStep(s, k, ok))
  {
  }

  lemma ConfigureSharing(cfg: Config, s: Pool, k: nat, ok: bool, now: int)
    requires Inv(s) && SharingInv(s) && k in s.calls && s.calls[k].phase.Configuring?
    ensures SharingInv(ConfigureStep(cfg, s, k, ok, now))
  {
    if !ok {
      FailSharing(s, k, s.closed);
    } else if cfg.migrateOnConnect && s.calls[k].tenant !in s.migrated {
    } else {
      CompleteSharing(s, k, now);
    }
  }

  lemma MigrateSharing(s: Pool, k: nat, ok: bool, now: int)
    requires Inv(s) && SharingInv(s) && k in s.calls && s.calls[k].phase.Migrating?
    ensures SharingInv(MigrateStep(s, k, ok, now))
  {
    var Call(tenant, phase) := s.calls[k];
    if ok {
      CompleteSharing(s, k, now);
      var s' := Complete(s, k, phase.client, now);
      forall l | l in s'.calls && s'.calls[l].phase.Migrating? ensures s'.calls[l].tenant !in s.migrated + {tenant} {
        assert s.inflight[s.calls[l].tenant] == l && s.inflight[tenant] == k;
      }
      assert MigratingUnmigrated(s'.calls, s.migrated + {tenant});
      assert MigrateStep(s, k, ok, now) == s'.(migrated := s.migrated + {tenant});
    } else {
      FailSharing(s, k, s.closed + [phase.client]);
    }
  }

  lemma SettleSharing(s: Pool, k: nat)
    requires SharingInv(s) && k in s.calls
    ensures SharingInv(SettleStep(s, k))
  {
  }

  lemma EvictSharing(s: Pool, t: string)
    requires Inv(s) && SharingInv(s) && forall k :: k in s.calls ==> s.calls[k].tenant != t
    ensures SharingInv(EvictStep(s, t))
  {
    if Find(s.connections, t).Some? { DropSharing(s, Find(s.connections, t).value); }
  }

  lemma StepSharing(cfg: Config, s: Pool, e: Event)
    requires Inv(s) && SharingInv(s) && Enabled(s, e) && !EvictsOwnCreation(s, e)
    ensures SharingInv(Step(cfg, s, e))
  {
    match e
    case Get(t, now) => GetSharing(cfg, s, t, now);
    case Resolve(k, ok) => ResolveSharing(s, k, ok);
    case Configure(k, ok, now) => ConfigureSharing(cfg, s, k, ok, now);
    case Migrate(k, ok, now) => MigrateSharing(s, k, ok, now);
    case Settle(k) => SettleSharing(s, k);
    case Sweep(now) => SweepSharing(s, now);
    case Evict(t) => EvictSharing(s, t);
  }

  lemma {:induction false} UndisturbedSharing(cfg: Config, evs: seq<Event>)
    requires Run(cfg, evs).Some? && Undisturbed(cfg, evs)
    ensures Inv(Run(cfg, evs).value) && SharingInv(Run(cfg, evs).value)
  {
    RunInv(cfg, evs);
    if evs != [] {
      var before := evs[..|evs| - 1];
      UndisturbedSharing(cfg, before);
      StepSharing(cfg, Run(cfg, before).value, evs[|evs| - 1]);
    }
  }

  lemma UndisturbedExtends(cfg: Config, evs: seq<Event>, e: Event)
    requires Run(cfg, evs).Some? && Enabled(Run(cfg, evs).value, e)
    ensures Run(cfg, evs + [e]) == Some(Step(cfg, Run(cfg, evs).value, e))
    ensures Undisturbed(cfg, evs) && !EvictsOwnCreation(Run(cfg, evs).value, e) ==> Undisturbed(cfg, evs + [e])
  {
    RunExtends(cfg, evs, e);
    assert (evs + [e])[..|evs|] == evs;
  }

  /** At most one creation per tenant; all who overlap with it get the same db, or its promise. */
  lemma OverlappingCallersShareDb(cfg: Config, evs: seq<Event>, k: nat)
    requires Run(cfg, evs).Some? && Undisturbed(cfg, evs)
    requires k in Run(cfg, evs).value.calls
    ensures var s := Run(cfg, evs).value;
            && (forall l :: l in s.calls && s.calls[l].tenant == s.calls[k].tenant ==> l == k)
            && (AnswerOf(s, s.calls[k].tenant) == Join(k)
                || (s.calls[k].phase.Returned? && AnswerOf(s, s.calls[k].tenant) == Hit(s.calls[k].phase.client)))
  {
    UndisturbedSharing(cfg, evs);
  }

  /** A hit never hands out a closed client, in any run. */
  lemma HitIsOpen(cfg: Config, evs: seq<Event>, tenant: string)
    requires Run(cfg, evs).Some? && AnswerOf(Run(cfg, evs).value, tenant).Hit?
    ensures AnswerOf(Run(cfg, evs).value, tenant).client !in Run(cfg, evs).value.closed
  {
    RunInv(cfg, evs);
  }

  /** Without an eviction of a tenant under creation, only a pragma failure abandons a client. */
  lemma {:induction false} UndisturbedStrands(cfg: Config, evs: seq<Event>)
    requires Run(cfg, evs).Some? && Undisturbed(cfg, evs)
    ensures RunStrands(cfg, evs) <==> exists i :: 0 <= i < |evs| && FailsPragmas(evs[i])
  {
    if evs != [] {
      var n := |evs| - 1;
      var before, e := evs[..n], evs[n];
      UndisturbedStrands(cfg, before);
      UndisturbedSharing(cfg, before);
      assert Strands(cfg, Run(cfg, before).value, e) <==> FailsPragmas(e);
      if i :| 0 <= i < |before| && FailsPragmas(before[i]) { assert FailsPragmas(evs[i]); }
      if i :| 0 <= i < |evs| && FailsPragmas(evs[i]) { assert i < n ==> FailsPragmas(before[i]); }
    }
  }

  /** Every opened client is in exactly one place precisely when no pragma step threw. */
  lemma UndisturbedAccount(cfg: Config, evs: seq<Event>)
    requires Run(cfg, evs).Some? && Undisturbed(cfg, evs)
    ensures (forall c: nat :: c < Run(cfg, evs).value.nextClient ==> Places(Run(cfg, evs).value, c) == 1)
       <==> forall i :: 0 <= i < |evs| ==> !FailsPragmas(evs[i])
  {
    EveryClientAccountedExactlyWhen(cfg, evs);
    UndisturbedStrands(cfg, evs);
  }

  /**
   * Evicting a tenant during its own creation always lets the next caller start
   * a second creation beside the first.
   */
  lemma EvictionDuplicatesCreation(cfg: Config, s: Pool, k: nat, now: int)
    requires Inv(s) && k in s.calls && IsBuilding(s.calls[k].phase)
    ensures var t := s.calls[k].tenant;
            var s1 := EvictStep(s, t);
            var s2 := GetStep(cfg, s1, t, now);
            && AnswerOf(s1, t) == Created(s.nextCall)
            && k != s.nextCall && {k, s.nextCall} <= InProgress(s2)
            && s2.calls[k].tenant == s2.calls[s.nextCall].tenant == t
  {
    var t := s.calls[k].tenant;
    var s1 := EvictStep(s, t);
    assert Find(s1.connections, t).None?;
    assert GetStep(cfg, s1, t, now) == Admit(EvictOldest(cfg, s1), t);
    assert GetStep(cfg, s1, t, now).calls == s.calls[s.nextCall := Call(t, Resolving)];
  }

  // ----- migrations

  ghost predicate MigratedIn(cfg: Config, evs: seq<Event>, t: string)
    requires Run(cfg, evs).Some?
  {
    evs != [] && (
      MigratedIn(cfg, evs[..|evs| - 1], t)
      || match evs[|evs| - 1]
         case Migrate(k, ok, _) => ok && Run(cfg, evs[..|evs| - 1]).value.calls[k].tenant == t
         case _ => false)
  }

  /** With migrate-on-connect, whatever is mapped has had a successful migration in this run. */
  lemma {:induction false} MappedHasMigrated(cfg: Config, evs: seq<Event>)
    requires Run(cfg, evs).Some? && cfg.migrateOnConnect
    ensures forall t :: t in Run(cfg, evs).value.migrated <==> MigratedIn(cfg, evs, t)
    ensures forall x :: x in Run(cfg, evs).value.connections ==> MigratedIn(cfg, evs, x.id)
  {
    if evs != [] {
      var before, e := evs[..|evs| - 1], evs[|evs| - 1];
      MappedHasMigrated(cfg, before);
      RunInv(cfg, before);
      var s, s' := Run(cfg, before).value, Run(cfg, evs).value;
      StepMapsMigrated(cfg, s, e);
    }
  }

  lemma StepMapsMigrated(cfg: Config, s: Pool, e: Event)
    requires cfg.migrateOnConnect && Enabled(s, e) && Inv(s)
    requires forall x :: x in s.connections ==> x.id in s.migrated
    ensures forall x :: x in Step(cfg, s, e).connections ==> x.id in Step(cfg, s, e).migrated
  {
    match e
    case Get(t, now) => if AnswerOf(s, t).Hit? { TouchMembers(s.connections, t, now); }
    case Sweep(now) => FreshInjective(s.connections, now);
    case _ =>
  }

  /** And no tenant is migrated successfully twice. */
  lemma MigratesOnce(cfg: Config, evs: seq<Event>, k: nat, ok: bool, now: int)
    requires Run(cfg, evs).Some? && Undisturbed(cfg, evs) && cfg.migrateOnConnect
    requires Enabled(Run(cfg, evs).value, Migrate(k, ok, now))
    ensures !MigratedIn(cfg, evs, Run(cfg, evs).value.calls[k].tenant)
  {
    UndisturbedSharing(cfg, evs);
    MappedHasMigrated(cfg, evs);
  }
}
