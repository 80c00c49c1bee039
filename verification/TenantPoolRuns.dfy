/**
 * What every interleaving of the pool's steps keeps: the capacity bound and the
 * account of every client that was opened.
 */
module TenantPoolRuns {
  import opened Wrappers
  import opened TenantPool

  /** The pool after a sequence of steps, or None when some step was not enabled. */
  function Run(cfg: Config, evs: seq<Event>): Option<Pool> {
    if evs == [] then Some(Empty)
    else match Run(cfg, evs[..|evs| - 1])
      case Some(s) => if Enabled(s, evs[|evs| - 1]) then Some(Step(cfg, s, evs[|evs| - 1])) else None
      case None => None
  }

  lemma RunExtends(cfg: Config, evs: seq<Event>, e: Event)
    requires Run(cfg, evs).Some? && Enabled(Run(cfg, evs).value, e)
    ensures Run(cfg, evs + [e]) == Some(Step(cfg, Run(cfg, evs).value, e))
  {
    assert (evs + [e])[..|evs|] == evs;
  }

  predicate IsBuilding(phase: Phase) {
    phase.Resolving? || phase.Configuring? || phase.Migrating?
  }

  /** The creations that have neither mapped their connection nor failed. */
  function InProgress(s: Pool): set<nat> {
    set k | k in s.calls && IsBuilding(s.calls[k].phase)
  }

  /** The largest number of creations that were ever in progress at once. */
  function Peak(cfg: Config, evs: seq<Event>): nat
    requires Run(cfg, evs).Some?
  {
    if evs == [] then 0
    else
      var before := Peak(cfg, evs[..|evs| - 1]);
      var now := |InProgress(Run(cfg, evs).value)|;
      if now > before then now else before
  }

  // ----- the invariant of every run

  /** No two connections share a tenant or a client. */
  ghost predicate Injective(c: seq<Connection>) {
    c == [] ||
    (Injective(c[1..]) && forall x :: x in c[1..] ==> x.id != c[0].id && x.client != c[0].client)
  }

  /** The creation has opened a client and still answers for it. */
  predicate OwnsClient(phase: Phase) {
    phase.Configuring? || phase.Migrating?
  }

  ghost predicate Building(s: Pool, c: nat) {
    exists k :: k in s.calls && OwnsClient(s.calls[k].phase) && s.calls[k].phase.client == c
  }

  ghost predicate Mapped(s: Pool, c: nat) {
    exists x :: x in s.connections && x.client == c
  }

  ghost predicate TenantIn(c: seq<Connection>, t: string) {
    exists x :: x in c && x.id == t
  }

  ghost predicate MappedTenant(s: Pool, t: string) {
    TenantIn(s.connections, t)
  }

  ghost predicate ConnectionsOk(c: seq<Connection>, nextClient: nat, closed: seq<nat>) {
    && Injective(c)
    && forall x :: x in c ==> x.id != "" && x.client < nextClient && x.client !in closed
  }

  ghost predicate CallsOk(calls: map<nat, Call>, nextCall: nat, nextClient: nat, closed: seq<nat>) {
    && (forall k :: k in calls ==> k < nextCall && calls[k].tenant != "")
    && (forall k :: k in calls && OwnsClient(calls[k].phase) ==>
          calls[k].phase.client < nextClient && calls[k].phase.client !in closed)
    && (forall k, l ::
          k in calls && l in calls && OwnsClient(calls[k].phase) && OwnsClient(calls[l].phase) && k != l ==>
          calls[k].phase.client != calls[l].phase.client)
  }

  ghost predicate Apart(calls: map<nat, Call>, c: seq<Connection>) {
    forall k, x :: k in calls && OwnsClient(calls[k].phase) && x in c ==> calls[k].phase.client != x.client
  }

  /** An opened client is never in two of the three places, and is closed at most once. */
  ghost predicate Inv(s: Pool) {
    && ConnectionsOk(s.connections, s.nextClient, s.closed)
    && CallsOk(s.calls, s.nextCall, s.nextClient, s.closed)
    && Apart(s.calls, s.connections)
    && (forall c :: c in s.closed ==> c < s.nextClient && multiset(s.closed)[c] == 1)
  }

  lemma DeleteInjective(c: seq<Connection>, id: string)
    requires Injective(c)
    ensures Injective(Delete(c, id))
    ensures (exists x :: x in c && x.id == id) ==> |Delete(c, id)| == |c| - 1
    ensures (forall x :: x in c ==> x.id != id) ==> Delete(c, id) == c
  {
  }

  lemma PutInjective(c: seq<Connection>, conn: Connection)
    requires Injective(c) && forall x :: x in c ==> x.client != conn.client
    ensures Injective(Put(c, conn))
    ensures forall x :: x in Put(c, conn) <==> x == conn || (x in c && x.id != conn.id)
  {
  }

  lemma TouchInjective(c: seq<Connection>, id: string, now: int)
    requires Injective(c)
    ensures Injective(Touch(c, id, now))
  {
    if c != [] {
      assert Touch(c, id, now)[1..] == Touch(c[1..], id, now);
    }
  }

  lemma {:induction false} StaleMembers(c: seq<Connection>, now: int)
    ensures forall x :: x in c && now - x.lastUsed > IDLE_TIMEOUT_MS ==> x.client in StaleClients(c, now)
    ensures forall n :: n in StaleClients(c, now) ==>
              exists x :: x in c && x.client == n && now - x.lastUsed > IDLE_TIMEOUT_MS
  {
    if c != [] {
      StaleMembers(c[1..], now);
    }
  }

  lemma {:induction false} StaleOnce(c: seq<Connection>, now: int)
    requires Injective(c)
    ensures forall n :: n in StaleClients(c, now) ==> multiset(StaleClients(c, now))[n] == 1
  {
    if c != [] {
      StaleOnce(c[1..], now);
      StaleMembers(c[1..], now);
      assert c[0].client !in StaleClients(c[1..], now);
      if now - c[0].lastUsed > IDLE_TIMEOUT_MS {
        assert StaleClients(c, now) == [c[0].client] + StaleClients(c[1..], now);
      }
    }
  }

  lemma {:induction false} FreshMembers(c: seq<Connection>, now: int)
    requires Injective(c)
    ensures Injective(KeepFresh(c, now)) && |KeepFresh(c, now)| <= |c|
    ensures forall x :: x in KeepFresh(c, now) <==> x in c && now - x.lastUsed <= IDLE_TIMEOUT_MS
  {
    if c != [] {
      FreshMembers(c[1..], now);
    }
  }

  lemma FreshInjective(c: seq<Connection>, now: int)
    requires Injective(c)
    ensures Injective(KeepFresh(c, now)) && |KeepFresh(c, now)| <= |c|
    ensures forall x :: x in KeepFresh(c, now) <==> x in c && now - x.lastUsed <= IDLE_TIMEOUT_MS
    ensures forall x :: x in c && now - x.lastUsed > IDLE_TIMEOUT_MS ==> x.client in StaleClients(c, now)
    ensures forall n :: n in StaleClients(c, now) ==> multiset(StaleClients(c, now))[n] == 1
    ensures forall n :: n in StaleClients(c, now) ==>
              exists x :: x in c && x.client == n && now - x.lastUsed > IDLE_TIMEOUT_MS
  {
    FreshMembers(c, now);
    StaleMembers(c, now);
    StaleOnce(c, now);
  }

  lemma SameConnection(c: seq<Connection>, x: Connection, y: Connection)
    requires Injective(c) && x in c && y in c && (x.id == y.id || x.client == y.client)
    ensures x == y
  {
  }

  lemma CompleteInv(s: Pool, k: nat, now: int)
    requires Inv(s) && k in s.calls && OwnsClient(s.calls[k].phase)
    ensures Inv(Complete(s, k, s.calls[k].phase.client, now))
  {
    PutInjective(s.connections, Connection(s.calls[k].tenant, s.calls[k].phase.client, now));
  }

  lemma ResolveInv(s: Pool, k: nat, ok: bool)
    requires Inv(s) && k in s.calls && s.calls[k].phase.Resolving?
    ensures Inv(ResolveStep(s, k, ok))
  {
  }

  lemma FailInv(s: Pool, k: nat, closing: bool)
    requires Inv(s) && k in s.calls && OwnsClient(s.calls[k].phase)
    ensures Inv(s.(calls := s.calls[k := Call(s.calls[k].tenant, Failed)],
                   closed := if closing then s.closed + [s.calls[k].phase.client] else s.closed))
  {
  }

  lemma ConfigureInv(cfg: Config, s: Pool, k: nat, ok: bool, now: int)
    requires Inv(s) && k in s.calls && s.calls[k].phase.Configuring?
    ensures Inv(ConfigureStep(cfg, s, k, ok, now))
  {
    if !ok {
      FailInv(s, k, false);
    } else if cfg.migrateOnConnect && s.calls[k].tenant !in s.migrated {
      MigratingInv(s, k);
    } else {
      CompleteInv(s, k, now);
    }
  }

  lemma MigratingInv(s: Pool, k: nat)
    requires Inv(s) && k in s.calls && s.calls[k].phase.Configuring?
    ensures Inv(s.(calls := s.calls[k := Call(s.calls[k].tenant, Migrating(s.calls[k].phase.client))]))
  {
  }

  lemma MigrateInv(s: Pool, k: nat, ok: bool, now: int)
    requires Inv(s) && k in s.calls && s.calls[k].phase.Migrating?
    ensures Inv(MigrateStep(s, k, ok, now))
  {
    if ok {
      CompleteInv(s, k, now);
    } else {
      FailInv(s, k, true);
    }
  }

  lemma SettleInv(s: Pool, k: nat)
    requires Inv(s) && k in s.calls
    ensures Inv(SettleStep(s, k))
  {
  }

  lemma AdmitInv(s: Pool, t: string)
    requires Inv(s) && t != ""
    ensures Inv(Admit(s, t))
  {
  }

  lemma SweepInv(s: Pool, now: int)
    requires Inv(s)
    ensures Inv(SweepStep(s, now))
  {
    var c := s.connections;
    FreshInjective(c, now);
    forall x, n | x in KeepFresh(c, now) && n in StaleClients(c, now) ensures x.client != n {
      var y :| y in c && y.client == n && now - y.lastUsed > IDLE_TIMEOUT_MS;
      if x.client == n { SameConnection(c, x, y); }
    }
  }

  lemma StepInv(cfg: Config, s: Pool, e: Event)
    requires Inv(s) && Enabled(s, e)
    ensures Inv(Step(cfg, s, e))
  {
    match e
    case Get(t, now) => GetInv(cfg, s, t, now);
    case Resolve(k, ok) => ResolveInv(s, k, ok);
    case Configure(k, ok, now) => ConfigureInv(cfg, s, k, ok, now);
    case Migrate(k, ok, now) => MigrateInv(s, k, ok, now);
    case Settle(k) => SettleInv(s, k);
    case Sweep(now) => SweepInv(s, now);
    case Evict(t) => if Find(s.connections, t).Some? { EvictOneInv(s, Find(s.connections, t).value); }
  }

  lemma GetInv(cfg: Config, s: Pool, t: string, now: int)
    requires Inv(s)
    ensures Inv(GetStep(cfg, s, t, now))
  {
    match AnswerOf(s, t)
    case Hit(_) => TouchInv(s, t, now);
    case Created(k) =>
      EvictInv(cfg, s);
      AdmitInv(EvictOldest(cfg, s), t);
    case _ =>
  }

  lemma TouchInv(s: Pool, t: string, now: int)
    requires Inv(s)
    ensures Inv(s.(connections := Touch(s.connections, t, now)))
  {
    var c, r := s.connections, Touch(s.connections, t, now);
    TouchInjective(c, t, now);
    forall x | x in r ensures exists y :: y in c && y.id == x.id && y.client == x.client {
      var i :| 0 <= i < |r| && r[i] == x;
      assert c[i] in c;
    }
  }

  lemma EvictInv(cfg: Config, s: Pool)
    requires Inv(s)
    ensures Inv(EvictOldest(cfg, s))
    ensures s.connections != [] && |s.connections| >= cfg.maxConnections ==>
              |EvictOldest(cfg, s).connections| == |s.connections| - 1
  {
    if s.connections != [] {
      var victim := s.connections[OldestIndex(s.connections)];
      EvictOneInv(s, victim);
    }
  }

  lemma EvictOneInv(s: Pool, victim: Connection)
    requires Inv(s) && victim in s.connections
    ensures Inv(s.(connections := Delete(s.connections, victim.id), closed := s.closed + [victim.client]))
    ensures |Delete(s.connections, victim.id)| == |s.connections| - 1
  {
    DeleteInjective(s.connections, victim.id);
    DeletedOk(s, victim);
    CallsApart(s, victim);
    ClosedOnce(s.closed, victim.client);
    hide ConnectionsOk, CallsOk, Apart, Delete;
  }

  lemma DeletedOk(s: Pool, victim: Connection)
    requires ConnectionsOk(s.connections, s.nextClient, s.closed) && victim in s.connections
    ensures ConnectionsOk(Delete(s.connections, victim.id), s.nextClient, s.closed + [victim.client])
  {
    DeleteInjective(s.connections, victim.id);
    forall x | x in s.connections && x.id != victim.id ensures x.client != victim.client {
      if x.client == victim.client { SameConnection(s.connections, x, victim); }
    }
  }

  lemma CallsApart(s: Pool, victim: Connection)
    requires CallsOk(s.calls, s.nextCall, s.nextClient, s.closed) && Apart(s.calls, s.connections)
    requires victim in s.connections
    ensures CallsOk(s.calls, s.nextCall, s.nextClient, s.closed + [victim.client])
    ensures Apart(s.calls, Delete(s.connections, victim.id))
  {
  }

  lemma ClosedOnce(closed: seq<nat>, client: nat)
    requires client !in closed && forall c :: c in closed ==> multiset(closed)[c] == 1
    ensures forall c :: c in closed + [client] ==> multiset(closed + [client])[c] == 1
  {
  }

  lemma {:induction false} RunInv(cfg: Config, evs: seq<Event>)
    requires Run(cfg, evs).Some?
    ensures Inv(Run(cfg, evs).value)
  {
    if evs != [] {
      var before := evs[..|evs| - 1];
      RunInv(cfg, before);
      StepInv(cfg, Run(cfg, before).value, evs[|evs| - 1]);
    }
  }

  // ----- capacity

  lemma CallMoves(s: Pool, s': Pool, k: nat)
    requires k in s.calls && IsBuilding(s.calls[k].phase) && k in s'.calls
    requires s'.calls == s.calls[k := s'.calls[k]]
    ensures |InProgress(s')| == |InProgress(s)| - (if IsBuilding(s'.calls[k].phase) then 0 else 1)
  {
    if IsBuilding(s'.calls[k].phase) {
      assert InProgress(s') == InProgress(s);
    } else {
      assert InProgress(s') == InProgress(s) - {k};
    }
  }

  lemma AdmitCounts(s: Pool, t: string)
    requires s.nextCall !in s.calls
    ensures |InProgress(Admit(s, t))| == |InProgress(s)| + 1
  {
    assert InProgress(Admit(s, t)) == InProgress(s) + {s.nextCall};
  }

  lemma GetCapacity(cfg: Config, s: Pool, t: string, now: int)
    requires cfg.maxConnections >= 1 && Inv(s)
    ensures var s' := GetStep(cfg, s, t, now);
            (|s'.connections| == |s.connections| && InProgress(s') == InProgress(s))
            || (|InProgress(s')| == |InProgress(s)| + 1
                && (|s'.connections| < |s.connections| || |s'.connections| == |s.connections| < cfg.maxConnections))
  {
    var s' := GetStep(cfg, s, t, now);
    if AnswerOf(s, t).Created? {
      EvictInv(cfg, s);
      AdmitCounts(EvictOldest(cfg, s), t);
    } else {
      assert s'.calls == s.calls;
    }
  }

  lemma StepCapacity(cfg: Config, s: Pool, e: Event, peak: nat)
    requires cfg.maxConnections >= 1 && Inv(s) && Enabled(s, e)
    requires |s.connections| + |InProgress(s)| <= cfg.maxConnections - 1 + peak
    ensures var s' := Step(cfg, s, e);
            |s'.connections| + |InProgress(s')| <= cfg.maxConnections - 1 + peak
            || |s'.connections| + |InProgress(s')| <= cfg.maxConnections - 1 + |InProgress(s')|
  {
    var s' := Step(cfg, s, e);
    match e
    case Get(t, now) => GetCapacity(cfg, s, t, now);
    case Resolve(k, ok) => CallMoves(s, s', k);
    case Configure(k, ok, now) => CallMoves(s, s', k);
    case Migrate(k, ok, now) => CallMoves(s, s', k);
    case Sweep(now) =>
      FreshInjective(s.connections, now);
      assert InProgress(s') == InProgress(s);
    case _ => assert InProgress(s') == InProgress(s);
  }

  /**
   * For every interleaving, live connections and creations in progress together
   * never exceed the limit by more than the overlap of creations beyond the first.
   */
  lemma {:induction false} CapacityBound(cfg: Config, evs: seq<Event>)
    requires cfg.maxConnections >= 1 && Run(cfg, evs).Some?
    ensures var s := Run(cfg, evs).value;
            |s.connections| + |InProgress(s)| <= cfg.maxConnections - 1 + Peak(cfg, evs)
  {
    if evs == [] {
      assert InProgress(Empty) == {};
    } else {
      var before := evs[..|evs| - 1];
      CapacityBound(cfg, before);
      RunInv(cfg, before);
      StepCapacity(cfg, Run(cfg, before).value, evs[|evs| - 1], Peak(cfg, before));
    }
  }
}
