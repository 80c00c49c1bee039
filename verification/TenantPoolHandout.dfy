/**
 * What a creation of a connection hands out.  Its creator, when `finally` has run,
 * and everyone who joined it are given the client of `Returned`, which may have
 * been evicted by then, or replaced in the map.
 */
module TenantPoolHandout {
  import opened TenantPool
  import opened TenantPoolRuns
  import opened TenantPoolClients
  import opened TenantPoolSharing

  // ----- every run

  /** A client that is about to be handed out belongs to no creation any more. */
  ghost predicate ReturnedOk(calls: map<nat, Call>, nextClient: nat) {
    && (forall k :: k in calls && calls[k].phase.Returned? ==> calls[k].phase.client < nextClient)
    && (forall k, l :: k in calls && l in calls && calls[k].phase.Returned? && OwnsClient(calls[l].phase) ==>
          calls[k].phase.client != calls[l].phase.client)
  }

  /** A call moves on: with the client it owned, with a fresh one, or with none. */
  lemma PhaseReturned(s: Pool, k: nat, phase: Phase, nextClient: nat)
    requires CallsOk(s.calls, s.nextCall, s.nextClient, s.closed) && ReturnedOk(s.calls, s.nextClient)
    requires k in s.calls && nextClient >= s.nextClient
    requires OwnsClient(phase) || phase.Returned? ==>
               if OwnsClient(s.calls[k].phase) then phase.client == s.calls[k].phase.client
               else phase == Configuring(s.nextClient) && nextClient > s.nextClient
    ensures ReturnedOk(s.calls[k := Call(s.calls[k].tenant, phase)], nextClient)
  {
  }

  lemma StepReturned(cfg: Config, s: Pool, e: Event)
    requires Inv(s) && Enabled(s, e) && ReturnedOk(s.calls, s.nextClient)
    ensures ReturnedOk(Step(cfg, s, e).calls, Step(cfg, s, e).nextClient)
  {
    match e
    case Get(t, now) => GetReturned(cfg, s, t, now);
    case Settle(k) => SettleReturned(s, k);
    case Resolve(k, ok) => ResolveReturned(s, k, ok);
    case Configure(k, ok, now) => ConfigureReturned(cfg, s, k, ok, now);
    case Migrate(k, ok, now) => MigrateReturned(s, k, ok, now);
    case _ =>
  }

  lemma GetReturned(cfg: Config, s: Pool, t: string, now: int)
    requires ReturnedOk(s.calls, s.nextClient)
    ensures ReturnedOk(GetStep(cfg, s, t, now).calls, s.nextClient)
  {
  }

  lemma SettleReturned(s: Pool, k: nat)
    requires k in s.calls && ReturnedOk(s.calls, s.nextClient)
    ensures ReturnedOk(SettleStep(s, k).calls, s.nextClient)
  {
  }

  lemma ResolveReturned(s: Pool, k: nat, ok: bool)
    requires Inv(s) && Enabled(s, Resolve(k, ok)) && ReturnedOk(s.calls, s.nextClient)
    ensures ReturnedOk(ResolveStep(s, k, ok).calls, ResolveStep(s, k, ok).nextClient)
  {
    hide ReturnedOk, CallsOk, ConnectionsOk, Apart;
    if ok {
      PhaseReturned(s, k, Configuring(s.nextClient), s.nextClient + 1);
    } else {
      PhaseReturned(s, k, Failed, s.nextClient);
    }
  }

  lemma ConfigureReturned(cfg: Config, s: Pool, k: nat, ok: bool, now: int)
    requires Inv(s) && Enabled(s, Configure(k, ok, now)) && ReturnedOk(s.calls, s.nextClient)
    ensures ReturnedOk(ConfigureStep(cfg, s, k, ok, now).calls, s.nextClient)
  {
    hide ReturnedOk, CallsOk, ConnectionsOk, Apart, Put;
    PhaseReturned(s, k, Failed, s.nextClient);
    PhaseReturned(s, k, Migrating(s.calls[k].phase.client), s.nextClient);
    PhaseReturned(s, k, Returned(s.calls[k].phase.client), s.nextClient);
  }

  lemma MigrateReturned(s: Pool, k: nat, ok: bool, now: int)
    requires Inv(s) && Enabled(s, Migrate(k, ok, now)) && ReturnedOk(s.calls, s.nextClient)
    ensures ReturnedOk(MigrateStep(s, k, ok, now).calls, s.nextClient)
  {
    hide ReturnedOk, CallsOk, ConnectionsOk, Apart, Put;
    PhaseReturned(s, k, Failed, s.nextClient);
    PhaseReturned(s, k, Returned(s.calls[k].phase.client), s.nextClient);
  }

  lemma {:induction false} RunReturned(cfg: Config, evs: seq<Event>)
    requires Run(cfg, evs).Some?
    ensures ReturnedOk(Run(cfg, evs).value.calls, Run(cfg, evs).value.nextClient)
  {
    if evs != [] {
      var before := evs[..|evs| - 1];
      RunReturned(cfg, before);
      RunInv(cfg, before);
      StepReturned(cfg, Run(cfg, before).value, evs[|evs| - 1]);
    }
  }

  /** In every run what is handed out is open exactly when it is mapped or abandoned. */
  lemma HandedOutOpenExactlyWhen(cfg: Config, evs: seq<Event>, k: nat)
    requires Run(cfg, evs).Some?
    requires k in Run(cfg, evs).value.calls && Run(cfg, evs).value.calls[k].phase.Returned?
    ensures var s := Run(cfg, evs).value;
            var c := s.calls[k].phase.client;
            c !in s.closed <==> Mapped(s, c) || Stray(s, c)
  {
    hide Inv;
    RunInv(cfg, evs);
    RunReturned(cfg, evs);
    AtMostOnePlace(Run(cfg, evs).value, Run(cfg, evs).value.calls[k].phase.client);
  }

  // ----- runs in which no tenant is evicted during its own creation

  /** The creator and all who joined are given an open client exactly when the tenant is still mapped. */
  lemma UndisturbedOpenExactlyWhen(cfg: Config, evs: seq<Event>, k: nat)
    requires Run(cfg, evs).Some? && Undisturbed(cfg, evs)
    requires k in Run(cfg, evs).value.calls && Run(cfg, evs).value.calls[k].phase.Returned?
    ensures var s := Run(cfg, evs).value;
            s.calls[k].phase.client !in s.closed <==> MappedTenant(s, s.calls[k].tenant)
  {
    UndisturbedSharing(cfg, evs);
  }

  /** While a creation is being returned, who asks for its tenant joins it exactly when its client is closed. */
  lemma LateJoinExactlyWhen(cfg: Config, evs: seq<Event>, k: nat)
    requires Run(cfg, evs).Some? && Undisturbed(cfg, evs)
    requires k in Run(cfg, evs).value.calls && Run(cfg, evs).value.calls[k].phase.Returned?
    ensures var s := Run(cfg, evs).value;
            AnswerOf(s, s.calls[k].tenant) == Join(k) <==> s.calls[k].phase.client in s.closed
  {
    UndisturbedSharing(cfg, evs);
  }

  /**
   * With a single slot, a second tenant that arrives between the mapping and the
   * `finally` closes the client that the creator and all who joined are given.
   */
  lemma LateJoinHappens()
    ensures var cfg := Config(1, false);
            var evs := [Get("a", 0), Resolve(0, true), Configure(0, true, 1), Get("b", 2)];
            && Run(cfg, evs).Some? && Undisturbed(cfg, evs)
            && AnswerOf(Run(cfg, evs).value, "a") == Join(0)
            && Run(cfg, evs).value.calls[0].phase == Returned(0) && Enabled(Run(cfg, evs).value, Settle(0))
            && 0 in Run(cfg, evs).value.closed
  {
    var cfg := Config(1, false);
    var e1 := [Get("a", 0)];
    var e2 := e1 + [Resolve(0, true)];
    var e3 := e2 + [Configure(0, true, 1)];
    UndisturbedExtends(cfg, [], Get("a", 0));
    assert [] + e1 == e1;
    UndisturbedExtends(cfg, e1, Resolve(0, true));
    UndisturbedExtends(cfg, e2, Configure(0, true, 1));
    assert Run(cfg, e3).value.connections == [Connection("a", 0, 1)];
    assert Delete([Connection("a", 0, 1)], "a") == [];
    UndisturbedExtends(cfg, e3, Get("b", 2));
    assert e3 + [Get("b", 2)] == [Get("a", 0), Resolve(0, true), Configure(0, true, 1), Get("b", 2)];
  }

  /** The connection is the one that a creation at capacity would evict. */
  ghost predicate IsVictim(cfg: Config, s: Pool, x: Connection) {
    |s.connections| >= cfg.maxConnections && s.connections != [] && s.connections[OldestIndex(s.connections)] == x
  }

  /** The steps that take a connection out of the map. */
  ghost predicate Unmaps(cfg: Config, s: Pool, e: Event, x: Connection) {
    match e
    case Get(t, _) => AnswerOf(s, t).Created? && IsVictim(cfg, s, x)
    case Sweep(now) => now - x.lastUsed > IDLE_TIMEOUT_MS
    case Evict(t) => t == x.id
    case _ => false
  }

  lemma DeletedOnly(c: seq<Connection>, x: Connection, y: Connection)
    requires Injective(c) && x in c && y in c
    ensures TenantIn(Delete(c, y.id), x.id) <==> x != y
  {
    if x.id == y.id { SameConnection(c, x, y); }
    if x != y { assert x in Delete(c, y.id); }
  }

  lemma GetUnmaps(cfg: Config, s: Pool, t: string, now: int, x: Connection)
    requires Inv(s) && x in s.connections
    ensures !MappedTenant(GetStep(cfg, s, t, now), x.id) <==> AnswerOf(s, t).Created? && IsVictim(cfg, s, x)
  {
    match AnswerOf(s, t)
    case Hit(_) =>
      TouchMembers(s.connections, t, now);
      assert TenantIn(s.connections, x.id);
    case Created(_) =>
      if |s.connections| >= cfg.maxConnections {
        DeletedOnly(s.connections, x, s.connections[OldestIndex(s.connections)]);
      } else {
        assert TenantIn(s.connections, x.id);
      }
    case _ => assert TenantIn(s.connections, x.id);
  }

  lemma SweepUnmaps(s: Pool, now: int, x: Connection)
    requires Inv(s) && x in s.connections
    ensures !MappedTenant(SweepStep(s, now), x.id) <==> now - x.lastUsed > IDLE_TIMEOUT_MS
  {
    FreshInjective(s.connections, now);
    var kept := KeepFresh(s.connections, now);
    if y :| y in kept && y.id == x.id { SameConnection(s.connections, x, y); }
    if now - x.lastUsed <= IDLE_TIMEOUT_MS { assert x in kept; }
  }

  lemma EvictUnmaps(s: Pool, t: string, x: Connection)
    requires Inv(s) && x in s.connections
    ensures !MappedTenant(EvictStep(s, t), x.id) <==> t == x.id
  {
    assert TenantIn(s.connections, x.id);
    if Find(s.connections, t).Some? {
      DeletedOnly(s.connections, x, Find(s.connections, t).value);
      if t == x.id { SameConnection(s.connections, x, Find(s.connections, t).value); }
    }
  }

  lemma CompleteKeepsTenants(s: Pool, k: nat, client: nat, now: int, t: string)
    requires k in s.calls && MappedTenant(s, t)
    ensures MappedTenant(Complete(s, k, client, now), t)
  {
    PutKeepsTenant(s.connections, Connection(s.calls[k].tenant, client, now), t);
  }

  lemma {:induction false} PutKeepsTenant(c: seq<Connection>, conn: Connection, t: string)
    requires TenantIn(c, t)
    ensures TenantIn(Put(c, conn), t)
  {
    if c[0].id == t {
      assert Put(c, conn)[0].id == t;
      assert Put(c, conn)[0] in Put(c, conn);
    } else if c[0].id != conn.id {
      PutKeepsTenant(c[1..], conn, t);
      var x :| x in Put(c[1..], conn) && x.id == t;
      assert x in Put(c, conn);
    } else {
      var x :| x in c[1..] && x.id == t;
      assert x in Put(c, conn);
    }
  }

  /**
   * A mapped tenant is taken out of the map by an eviction at capacity, by a sweep
   * after five idle minutes, or by `evictTenantDB`, and by nothing else.
   */
  lemma UnmappedExactlyWhen(cfg: Config, s: Pool, e: Event, x: Connection)
    requires Inv(s) && Enabled(s, e) && x in s.connections
    ensures !MappedTenant(Step(cfg, s, e), x.id) <==> Unmaps(cfg, s, e, x)
  {
    assert TenantIn(s.connections, x.id);
    match e
    case Get(t, now) => GetUnmaps(cfg, s, t, now, x);
    case Configure(k, ok, now) => CompleteKeepsTenants(s, k, s.calls[k].phase.client, now, x.id);
    case Migrate(k, ok, now) => CompleteKeepsTenants(s, k, s.calls[k].phase.client, now, x.id);
    case Sweep(now) => SweepUnmaps(s, now, x);
    case Evict(t) => EvictUnmaps(s, t, x);
    case _ =>
  }

  // ----- two creations of one tenant

  ghost predicate MappedUnder(s: Pool, t: string, c: nat) {
    exists x :: x in s.connections && x.id == t && x.client == c
  }

  /** The step maps a connection of the tenant. */
  predicate Maps(cfg: Config, s: Pool, e: Event, t: string) {
    match e
    case Configure(k, ok, _) =>
      Enabled(s, e) && s.calls[k].tenant == t && ok && !(cfg.migrateOnConnect && t !in s.migrated)
    case Migrate(k, ok, _) => Enabled(s, e) && s.calls[k].tenant == t && ok
    case _ => false
  }

  /** A client that was mapped: it still is, or it has been closed or abandoned. */
  ghost predicate KeptOrGone(s: Pool, t: string, c: nat) {
    MappedUnder(s, t, c) || c in s.closed || Stray(s, c)
  }

  lemma CompleteKeeps(s: Pool, k: nat, now: int, t: string, c: nat)
    requires Inv(s) && k in s.calls && OwnsClient(s.calls[k].phase) && MappedUnder(s, t, c)
    ensures var s' := Complete(s, k, s.calls[k].phase.client, now);
            if s.calls[k].tenant == t then Stray(s', c) else MappedUnder(s', t, c)
  {
    var conn := Connection(s.calls[k].tenant, s.calls[k].phase.client, now);
    CompletePlaces(s, k, now);
    PutKeeps(s.connections, conn);
    var x :| x in s.connections && x.id == t && x.client == c;
    assert x.id != conn.id ==> x in Put(s.connections, conn);
  }

  lemma MigrationKeeps(s: Pool, k: nat, now: int, t: string, c: nat)
    requires Inv(s) && k in s.calls && s.calls[k].phase.Migrating? && MappedUnder(s, t, c)
    ensures var s' := MigrateStep(s, k, true, now);
            if s.calls[k].tenant == t then Stray(s', c) else MappedUnder(s', t, c)
  {
    CompleteKeeps(s.(migrated := s.migrated + {s.calls[k].tenant}), k, now, t, c);
  }

  lemma DropKeeps(s: Pool, y: Connection, t: string, c: nat)
    requires Inv(s) && MappedUnder(s, t, c) && y in s.connections
    ensures var r := Delete(s.connections, y.id);
            c == y.client || exists x :: x in r && x.id == t && x.client == c
  {
    var x :| x in s.connections && x.id == t && x.client == c;
    if x.id == y.id { SameConnection(s.connections, x, y); } else { assert x in Delete(s.connections, y.id); }
  }

  lemma GetKeeps(cfg: Config, s: Pool, u: string, now: int, t: string, c: nat)
    requires Inv(s) && MappedUnder(s, t, c)
    ensures MappedUnder(GetStep(cfg, s, u, now), t, c) || c in GetStep(cfg, s, u, now).closed
  {
    var x :| x in s.connections && x.id == t && x.client == c;
    match AnswerOf(s, u)
    case Hit(_) =>
      var i :| 0 <= i < |s.connections| && s.connections[i] == x;
      assert Touch(s.connections, u, now)[i] in Touch(s.connections, u, now);
    case Created(_) =>
      if |s.connections| >= cfg.maxConnections {
        DropKeeps(s, s.connections[OldestIndex(s.connections)], t, c);
      }
    case _ =>
  }

  lemma SweepKeeps(s: Pool, now: int, t: string, c: nat)
    requires Inv(s) && MappedUnder(s, t, c)
    ensures MappedUnder(SweepStep(s, now), t, c) || c in SweepStep(s, now).closed
  {
    FreshInjective(s.connections, now);
    var x :| x in s.connections && x.id == t && x.client == c;
    assert x in KeepFresh(s.connections, now) || x.client in StaleClients(s.connections, now);
  }

  lemma EvictKeeps(s: Pool, u: string, t: string, c: nat)
    requires Inv(s) && MappedUnder(s, t, c)
    ensures MappedUnder(EvictStep(s, u), t, c) || c in EvictStep(s, u).closed
  {
    if Find(s.connections, u).Some? { DropKeeps(s, Find(s.connections, u).value, t, c); }
  }

  lemma StepKeeps(cfg: Config, s: Pool, e: Event, t: string, c: nat)
    requires Inv(s) && Enabled(s, e) && MappedUnder(s, t, c)
    ensures if Maps(cfg, s, e, t) then Stray(Step(cfg, s, e), c) else KeptOrGone(Step(cfg, s, e), t, c)
  {
    hide Inv, Stray;
    match e
    case Get(u, now) => GetKeeps(cfg, s, u, now, t, c);
    case Configure(k, ok, now) => CompleteKeeps(s, k, now, t, c);
    case Migrate(k, ok, now) => MigrationKeeps(s, k, now, t, c);
    case Sweep(now) => SweepKeeps(s, now, t, c);
    case Evict(u) => EvictKeeps(s, u, t, c);
    case _ =>
  }

  lemma StepStaysGone(cfg: Config, s: Pool, e: Event, c: nat)
    requires Inv(s) && Enabled(s, e)
    ensures c in s.closed ==> c in Step(cfg, s, e).closed
    ensures Stray(s, c) ==> Stray(Step(cfg, s, e), c)
  {
    hide Inv, Stray;
    StrandedExactlyWhen(cfg, s, e);
  }

  lemma {:induction false} KeptOrGoneLater(cfg: Config, evs: seq<Event>, more: seq<Event>, t: string, c: nat)
    requires Run(cfg, evs).Some? && MappedUnder(Run(cfg, evs).value, t, c) && Run(cfg, evs + more).Some?
    ensures KeptOrGone(Run(cfg, evs + more).value, t, c)
  {
    if more == [] {
      assert evs + more == evs;
    } else {
      var earlier, e := more[..|more| - 1], more[|more| - 1];
      assert (evs + more)[..|evs + more| - 1] == evs + earlier;
      KeptOrGoneLater(cfg, evs, earlier, t, c);
      RunInv(cfg, evs + earlier);
      var s := Run(cfg, evs + earlier).value;
      if MappedUnder(s, t, c) { StepKeeps(cfg, s, e, t, c); }
      StepStaysGone(cfg, s, e, c);
    }
  }

  lemma MappedOverExactlyWhen(cfg: Config, s: Pool, e: Event, t: string, c: nat)
    requires Inv(s) && KeptOrGone(s, t, c) && Enabled(s, e) && Maps(cfg, s, e, t)
    ensures Stray(Step(cfg, s, e), c) <==> c !in s.closed
  {
    hide Inv;
    if MappedUnder(s, t, c) { StepKeeps(cfg, s, e, t, c); }
    StepStaysGone(cfg, s, e, c);
    AtMostOnePlace(s, c);
  }

  /**
   * A tenant's connection has been mapped, and later another creation maps the same
   * tenant.  The first client is abandoned unless it has been closed by then,
   * whatever happened in between, with or without migrations.
   */
  lemma SecondMappingExactlyWhen(cfg: Config, evs: seq<Event>, more: seq<Event>, e: Event, t: string, c: nat)
    requires Run(cfg, evs).Some? && MappedUnder(Run(cfg, evs).value, t, c) && Run(cfg, evs + more).Some?
    requires Enabled(Run(cfg, evs + more).value, e) && Maps(cfg, Run(cfg, evs + more).value, e, t)
    ensures var s := Run(cfg, evs + more).value;
            Stray(Step(cfg, s, e), c) <==> c !in s.closed
  {
    KeptOrGoneLater(cfg, evs, more, t, c);
    RunInv(cfg, evs + more);
    MappedOverExactlyWhen(cfg, Run(cfg, evs + more).value, e, t, c);
  }
}
