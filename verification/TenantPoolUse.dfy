/**
 * What the pool's connections are: which tenant each client was opened for, and
 * when each mapped tenant was last used, read off the steps alone; and what sweeps
 * and evictions therefore take.
 */
module TenantPoolUse {
  import opened Wrappers
  import opened TenantPool
  import opened TenantPoolRuns
  import opened TenantPoolSharing
  import opened TenantPoolHandout

  // ----- the last use of a tenant

  /** The instant at which a step uses the tenant: a call for it, or the mapping of its connection. */
  function UsedAt(cfg: Config, s: Pool, e: Event, t: string): Option<int> {
    match e
    case Get(u, now) => if u == t then Some(now) else None
    case Configure(_, _, now) => if Maps(cfg, s, e, t) then Some(now) else None
    case Migrate(_, _, now) => if Maps(cfg, s, e, t) then Some(now) else None
    case _ => None
  }

  ghost function LastUse(cfg: Config, evs: seq<Event>, t: string): Option<int>
    requires Run(cfg, evs).Some?
  {
    if evs == [] then None
    else
      var before, e := evs[..|evs| - 1], evs[|evs| - 1];
      var used := UsedAt(cfg, Run(cfg, before).value, e, t);
      if used.Some? then used else LastUse(cfg, before, t)
  }

  lemma HitUses(s: Pool, t: string, now: int, x: Connection)
    requires x in Touch(s.connections, t, now)
    ensures if x.id == t then x.lastUsed == now else x in s.connections
  {
    var r := Touch(s.connections, t, now);
    var i :| 0 <= i < |r| && r[i] == x;
    assert s.connections[i] in s.connections;
  }

  lemma GetUses(cfg: Config, s: Pool, t: string, now: int, x: Connection)
    requires x in GetStep(cfg, s, t, now).connections && x.id != ""
    ensures if x.id == t then x.lastUsed == now else x in s.connections
  {
    if AnswerOf(s, t).Hit? { HitUses(s, t, now, x); }
  }

  lemma CompleteUses(s: Pool, k: nat, client: nat, now: int, x: Connection)
    requires Inv(s) && k in s.calls && OwnsClient(s.calls[k].phase) && s.calls[k].phase.client == client
    requires x in Complete(s, k, client, now).connections
    ensures if x.id == s.calls[k].tenant then x.lastUsed == now else x in s.connections
  {
    PutKeeps(s.connections, Connection(s.calls[k].tenant, client, now));
  }

  /** After a step each connection carries the instant of its use in that step, or is as it was. */
  lemma StepUses(cfg: Config, s: Pool, e: Event, x: Connection)
    requires Inv(s) && Enabled(s, e) && x in Step(cfg, s, e).connections && x.id != ""
    ensures match UsedAt(cfg, s, e, x.id)
            case Some(now) => x.lastUsed == now
            case None => x in s.connections
  {
    match e
    case Get(t, now) => GetUses(cfg, s, t, now, x);
    case Configure(k, ok, now) =>
      if ok && !(cfg.migrateOnConnect && s.calls[k].tenant !in s.migrated) {
        CompleteUses(s, k, s.calls[k].phase.client, now, x);
      }
    case Migrate(k, ok, now) => if ok { CompleteUses(s, k, s.calls[k].phase.client, now, x); }
    case Sweep(now) => FreshInjective(s.connections, now);
    case _ =>
  }

  /** In every run each connection's time is that of the last call for its tenant or of its mapping. */
  lemma {:induction false} LastUsedIsLastUse(cfg: Config, evs: seq<Event>)
    requires Run(cfg, evs).Some?
    ensures forall x :: x in Run(cfg, evs).value.connections ==> LastUse(cfg, evs, x.id) == Some(x.lastUsed)
  {
    if evs != [] {
      var before, e := evs[..|evs| - 1], evs[|evs| - 1];
      LastUsedIsLastUse(cfg, before);
      RunInv(cfg, before);
      RunInv(cfg, evs);
      hide Step, Enabled, UsedAt;
      forall x | x in Run(cfg, evs).value.connections ensures LastUse(cfg, evs, x.id) == Some(x.lastUsed) {
        StepUses(cfg, Run(cfg, before).value, e, x);
      }
    }
  }

  /** A sweep closes exactly the tenants that were neither called for nor mapped in the last five minutes. */
  lemma SweepsExactlyIdle(cfg: Config, evs: seq<Event>, now: int)
    requires Run(cfg, evs).Some?
    ensures var s, s' := Run(cfg, evs).value, SweepStep(Run(cfg, evs).value, now);
            && (forall x :: x in s'.connections ==> x in s.connections)
            && (forall x :: x in s.connections ==>
                  && LastUse(cfg, evs, x.id).Some?
                  && (x !in s'.connections <==> now - LastUse(cfg, evs, x.id).value > 300_000)
                  && (x.client in s'.closed <==> now - LastUse(cfg, evs, x.id).value > 300_000))
  {
    RunInv(cfg, evs);
    LastUsedIsLastUse(cfg, evs);
    var s := Run(cfg, evs).value;
    FreshInjective(s.connections, now);
    forall x | x in s.connections
      ensures x.client in SweepStep(s, now).closed <==> now - x.lastUsed > 300_000
    {
      if x.client in StaleClients(s.connections, now) {
        var y :| y in s.connections && y.client == x.client && now - y.lastUsed > IDLE_TIMEOUT_MS;
        SameConnection(s.connections, x, y);
      }
    }
  }

  /** Of the mapped tenants none was used longer ago, and those that entered the map before it were used later. */
  ghost predicate LeastRecentlyUsed(cfg: Config, evs: seq<Event>, i: nat)
    requires Run(cfg, evs).Some? && i < |Run(cfg, evs).value.connections|
    requires forall x :: x in Run(cfg, evs).value.connections ==> LastUse(cfg, evs, x.id).Some?
  {
    var c := Run(cfg, evs).value.connections;
    forall j :: 0 <= j < |c| ==>
      && LastUse(cfg, evs, c[i].id).value <= LastUse(cfg, evs, c[j].id).value
      && (j < i ==> LastUse(cfg, evs, c[i].id).value < LastUse(cfg, evs, c[j].id).value)
  }

  /**
   * A call that starts a creation closes and drops exactly one connection when the
   * map is full, that of the tenant used longest ago, and none when it is not.
   */
  lemma EvictsLeastRecentlyUsed(cfg: Config, evs: seq<Event>, tenant: string, now: int)
    requires Run(cfg, evs).Some? && AnswerOf(Run(cfg, evs).value, tenant).Created?
    ensures var s, s' := Run(cfg, evs).value, GetStep(cfg, Run(cfg, evs).value, tenant, now);
            && (forall x :: x in s.connections ==> LastUse(cfg, evs, x.id).Some?)
            && (if |s.connections| >= cfg.maxConnections && s.connections != [] then
                  exists i: nat ::
                    && i < |s.connections| && LeastRecentlyUsed(cfg, evs, i)
                    && s'.closed == s.closed + [s.connections[i].client]
                    && (forall x :: x in s'.connections <==> x in s.connections && x != s.connections[i])
                else s'.closed == s.closed && s'.connections == s.connections)
  {
    RunInv(cfg, evs);
    LastUsedIsLastUse(cfg, evs);
    var s := Run(cfg, evs).value;
    CreationEvicts(cfg, s, tenant, now);
    if |s.connections| >= cfg.maxConnections && s.connections != [] {
      OldestIsLeastRecent(cfg, evs);
      DropsOnly(s.connections, OldestIndex(s.connections));
    }
    hide LastUse, Run, Inv, GetStep, LeastRecentlyUsed, Delete, OldestIndex;
  }

  lemma CreationEvicts(cfg: Config, s: Pool, tenant: string, now: int)
    requires AnswerOf(s, tenant).Created?
    ensures var s' := GetStep(cfg, s, tenant, now);
            if |s.connections| >= cfg.maxConnections && s.connections != [] then
              var i := OldestIndex(s.connections);
              && s'.closed == s.closed + [s.connections[i].client]
              && s'.connections == Delete(s.connections, s.connections[i].id)
            else s'.closed == s.closed && s'.connections == s.connections
  {
  }

  lemma OldestIsLeastRecent(cfg: Config, evs: seq<Event>)
    requires Run(cfg, evs).Some? && Run(cfg, evs).value.connections != []
    requires forall x :: x in Run(cfg, evs).value.connections ==> LastUse(cfg, evs, x.id) == Some(x.lastUsed)
    ensures LeastRecentlyUsed(cfg, evs, OldestIndex(Run(cfg, evs).value.connections))
  {
    var c := Run(cfg, evs).value.connections;
    hide LastUse, Run;
    assert forall j :: 0 <= j < |c| ==> c[j] in c;
  }

  lemma DropsOnly(c: seq<Connection>, i: nat)
    requires Injective(c) && i < |c|
    ensures forall x :: x in Delete(c, c[i].id) <==> x in c && x != c[i]
  {
    forall x | x in c && x.id == c[i].id ensures x == c[i] { SameConnection(c, x, c[i]); }
  }

  // ----- the tenant of a client

  /** The tenant for whose call the client was opened. */
  ghost function OpenedFor(cfg: Config, evs: seq<Event>, client: nat): Option<string>
    requires Run(cfg, evs).Some?
  {
    if evs == [] then None
    else
      var before, e := evs[..|evs| - 1], evs[|evs| - 1];
      var s := Run(cfg, before).value;
      if e.Resolve? && e.ok && s.nextClient == client then Some(s.calls[e.call].tenant)
      else OpenedFor(cfg, before, client)
  }

  /** The client is known to belong to the tenant. */
  ghost predicate Belongs(cfg: Config, evs: seq<Event>, client: nat, tenant: string)
    requires Run(cfg, evs).Some?
  {
    client < Run(cfg, evs).value.nextClient && OpenedFor(cfg, evs, client) == Some(tenant)
  }

  ghost predicate HasClient(phase: Phase) {
    OwnsClient(phase) || phase.Returned?
  }

  /** Connections and creations hold clients of their own tenants, and in flight is a creation of the tenant. */
  ghost predicate OwnClients(cfg: Config, evs: seq<Event>)
    requires Run(cfg, evs).Some?
  {
    var s := Run(cfg, evs).value;
    && (forall x :: x in s.connections ==> Belongs(cfg, evs, x.client, x.id))
    && (forall k :: k in s.calls && HasClient(s.calls[k].phase) ==>
          Belongs(cfg, evs, s.calls[k].phase.client, s.calls[k].tenant))
    && (forall t :: t in s.inflight ==> s.inflight[t] in s.calls && s.calls[s.inflight[t]].tenant == t)
  }

  lemma StillBelongs(cfg: Config, before: seq<Event>, e: Event, evs: seq<Event>, client: nat, tenant: string)
    requires evs == before + [e] && Run(cfg, evs).Some?
    requires Run(cfg, before).Some? && Enabled(Run(cfg, before).value, e)
    requires Belongs(cfg, before, client, tenant)
    ensures Belongs(cfg, evs, client, tenant)
  {
    assert evs[..|evs| - 1] == before;
  }

  lemma ConnectionFrom(cfg: Config, s: Pool, e: Event, x: Connection)
    requires Inv(s) && Enabled(s, e) && x in Step(cfg, s, e).connections
    ensures || (exists y :: y in s.connections && y.id == x.id && y.client == x.client)
            || (exists k :: k in s.calls && OwnsClient(s.calls[k].phase)
                            && s.calls[k].tenant == x.id && s.calls[k].phase.client == x.client)
  {
    match e
    case Get(t, now) => if AnswerOf(s, t).Hit? { TouchMembers(s.connections, t, now); }
    case Configure(k, ok, now) => PutKeepsOrNew(s.connections, s.calls[k].tenant, s.calls[k].phase.client, now, x);
    case Migrate(k, ok, now) => PutKeepsOrNew(s.connections, s.calls[k].tenant, s.calls[k].phase.client, now, x);
    case Sweep(now) => FreshInjective(s.connections, now);
    case _ =>
  }

  lemma PutKeepsOrNew(c: seq<Connection>, t: string, client: nat, now: int, x: Connection)
    ensures x in Put(c, Connection(t, client, now)) ==> x in c || (x.id == t && x.client == client)
  {
  }

  /** Where the client of a creation comes from: it had it before, or it has just been opened. */
  lemma CallFrom(cfg: Config, s: Pool, e: Event, k: nat)
    requires Inv(s) && Enabled(s, e)
    requires k in Step(cfg, s, e).calls && HasClient(Step(cfg, s, e).calls[k].phase)
    ensures k in s.calls && s.calls[k].tenant == Step(cfg, s, e).calls[k].tenant
    ensures || (HasClient(s.calls[k].phase) && s.calls[k].phase.client == Step(cfg, s, e).calls[k].phase.client)
            || (e == Resolve(k, true) && Step(cfg, s, e).calls[k].phase.client == s.nextClient
                && Step(cfg, s, e).nextClient == s.nextClient + 1)
  {
  }

  lemma InflightFrom(cfg: Config, s: Pool, e: Event, t: string)
    requires Inv(s) && Enabled(s, e) && t in Step(cfg, s, e).inflight
    requires forall u :: u in s.inflight ==> s.inflight[u] in s.calls && s.calls[s.inflight[u]].tenant == u
    ensures var s' := Step(cfg, s, e);
            s'.inflight[t] in s'.calls && s'.calls[s'.inflight[t]].tenant == t
  {
    if e.Get? { GetInflight(cfg, s, e.tenant, e.now); } else { CallsStay(cfg, s, e); }
    hide Inv;
  }

  lemma GetInflight(cfg: Config, s: Pool, t: string, now: int)
    requires Inv(s)
    ensures var s' := GetStep(cfg, s, t, now);
            (s'.inflight == s.inflight && s'.calls == s.calls)
            || (s'.inflight == s.inflight[t := s.nextCall] && s'.calls == s.calls[s.nextCall := Call(t, Resolving)]
                && s.nextCall !in s.calls)
  {
    hide Delete;
  }

  /** Apart from calls, creations keep their tenants until they are settled, and the others stay in flight. */
  lemma CallsStay(cfg: Config, s: Pool, e: Event)
    requires Enabled(s, e) && !e.Get?
    ensures var s' := Step(cfg, s, e);
            && (forall t :: t in s'.inflight ==>
                  t in s.inflight && s'.inflight[t] == s.inflight[t] && (e.Settle? ==> t != s.calls[e.call].tenant))
            && (forall k :: k in s.calls && !(e.Settle? && k == e.call) ==>
                  k in s'.calls && s'.calls[k].tenant == s.calls[k].tenant)
  {
  }

  lemma {:induction false} ClientsBelong(cfg: Config, evs: seq<Event>)
    requires Run(cfg, evs).Some?
    ensures OwnClients(cfg, evs)
  {
    if evs != [] {
      var before, e := evs[..|evs| - 1], evs[|evs| - 1];
      assert evs == before + [e];
      ClientsBelong(cfg, before);
      RunInv(cfg, before);
      var s, s' := Run(cfg, before).value, Run(cfg, evs).value;
      forall x | x in s'.connections ensures Belongs(cfg, evs, x.client, x.id) {
        ConnectionBelongs(cfg, before, e, evs, x);
      }
      forall k | k in s'.calls && HasClient(s'.calls[k].phase)
        ensures Belongs(cfg, evs, s'.calls[k].phase.client, s'.calls[k].tenant)
      {
        CallBelongs(cfg, before, e, evs, k);
      }
      forall t | t in s'.inflight ensures s'.inflight[t] in s'.calls && s'.calls[s'.inflight[t]].tenant == t {
        InflightFrom(cfg, s, e, t);
      }
    }
  }

  lemma ConnectionBelongs(cfg: Config, before: seq<Event>, e: Event, evs: seq<Event>, x: Connection)
    requires evs == before + [e] && Run(cfg, before).Some? && Run(cfg, evs).Some?
    requires Enabled(Run(cfg, before).value, e) && Run(cfg, evs).value == Step(cfg, Run(cfg, before).value, e)
    requires OwnClients(cfg, before) && Inv(Run(cfg, before).value) && x in Run(cfg, evs).value.connections
    ensures Belongs(cfg, evs, x.client, x.id)
  {
    hide Inv, Step, Run, Belongs;
    ConnectionFrom(cfg, Run(cfg, before).value, e, x);
    StillBelongsFor(cfg, before, e, evs, x.client, x.id);
  }

  lemma StillBelongsFor(cfg: Config, before: seq<Event>, e: Event, evs: seq<Event>, client: nat, tenant: string)
    requires evs == before + [e] && Run(cfg, evs).Some?
    requires Run(cfg, before).Some? && Enabled(Run(cfg, before).value, e)
    ensures Belongs(cfg, before, client, tenant) ==> Belongs(cfg, evs, client, tenant)
  {
    if Belongs(cfg, before, client, tenant) { StillBelongs(cfg, before, e, evs, client, tenant); }
  }

  lemma CallBelongs(cfg: Config, before: seq<Event>, e: Event, evs: seq<Event>, k: nat)
    requires evs == before + [e] && Run(cfg, before).Some? && Run(cfg, evs).Some?
    requires Enabled(Run(cfg, before).value, e) && Run(cfg, evs).value == Step(cfg, Run(cfg, before).value, e)
    requires OwnClients(cfg, before) && Inv(Run(cfg, before).value)
    requires k in Run(cfg, evs).value.calls && HasClient(Run(cfg, evs).value.calls[k].phase)
    ensures Belongs(cfg, evs, Run(cfg, evs).value.calls[k].phase.client, Run(cfg, evs).value.calls[k].tenant)
  {
    var s, s' := Run(cfg, before).value, Run(cfg, evs).value;
    CallFrom(cfg, s, e, k);
    StillBelongsFor(cfg, before, e, evs, s'.calls[k].phase.client, s'.calls[k].tenant);
    assert evs[..|evs| - 1] == before;
    hide Inv, Step, Run;
  }

  /**
   * In every run whoever calls for a tenant is given a client that was opened for
   * that tenant: on a hit, on joining a creation, and on creating.
   */
  lemma TenantsApart(cfg: Config, evs: seq<Event>, tenant: string)
    requires Run(cfg, evs).Some?
    ensures var s, answer := Run(cfg, evs).value, AnswerOf(Run(cfg, evs).value, tenant);
            && (answer.Hit? ==> OpenedFor(cfg, evs, answer.client) == Some(tenant))
            && (answer.Join? ==>
                  && answer.call in s.calls && s.calls[answer.call].tenant == tenant
                  && (HasClient(s.calls[answer.call].phase) ==>
                        OpenedFor(cfg, evs, s.calls[answer.call].phase.client) == Some(tenant)))
    ensures forall k :: k in Run(cfg, evs).value.calls && Run(cfg, evs).value.calls[k].phase.Returned? ==>
              OpenedFor(cfg, evs, Run(cfg, evs).value.calls[k].phase.client)
              == Some(Run(cfg, evs).value.calls[k].tenant)
  {
    ClientsBelong(cfg, evs);
    hide OpenedFor, Run;
  }

  /**
   * The `finally` of one creation forgets another of the same tenant: the next
   * caller then starts a third one beside it.
   */
  lemma FinallyForgetsOther(cfg: Config, s: Pool, k: nat, l: nat)
    requires Enabled(s, Settle(k)) && l in s.calls && k != l && s.calls[l].tenant == s.calls[k].tenant != ""
    requires !MappedTenant(s, s.calls[k].tenant)
    ensures var s' := Step(cfg, s, Settle(k));
            AnswerOf(s', s.calls[k].tenant) == Created(s.nextCall) && l in s'.calls && k !in s'.calls
  {
    assert Find(s.connections, s.calls[k].tenant).None?;
  }
}
