/**
 * Where the clients that the pool opened are: in a creation, mapped, closed, or
 * abandoned; and exactly which steps abandon one.
 */
module TenantPoolClients {
  import opened TenantPool
  import opened TenantPoolRuns

  /** In how many places a client is accounted for; every `close` counts. */
  ghost function Places(s: Pool, c: nat): nat {
    (if Building(s, c) then 1 else 0) + (if Mapped(s, c) then 1 else 0) + multiset(s.closed)[c]
  }

  /** The client was opened, and nothing will ever close it. */
  ghost predicate Stray(s: Pool, c: nat) {
    c < s.nextClient && Places(s, c) == 0
  }

  /** The steps that abandon a client: a pragma failure, and mapping over a live connection. */
  ghost predicate Strands(cfg: Config, s: Pool, e: Event)
    requires Enabled(s, e)
  {
    match e
    case Configure(k, ok, _) =>
      !ok || (!(cfg.migrateOnConnect && s.calls[k].tenant !in s.migrated) && MappedTenant(s, s.calls[k].tenant))
    case Migrate(k, ok, _) => ok && MappedTenant(s, s.calls[k].tenant)
    case _ => false
  }

  lemma AtMostOnePlace(s: Pool, c: nat)
    requires Inv(s)
    ensures Places(s, c) <= 1
    ensures c >= s.nextClient ==> Places(s, c) == 0
  {
    assert c in s.closed ==> multiset(s.closed)[c] == 1;
  }

  lemma BuildingMoves(s: Pool, s': Pool, k: nat)
    requires k in s.calls && k in s'.calls && s'.calls == s.calls[k := s'.calls[k]]
    ensures forall c ::
              (forall l :: l in s.calls && l != k && OwnsClient(s.calls[l].phase) ==> s.calls[l].phase.client != c)
              ==> (Building(s', c) <==> OwnsClient(s'.calls[k].phase) && s'.calls[k].phase.client == c)
    ensures forall c :: !(OwnsClient(s.calls[k].phase) && s.calls[k].phase.client == c)
                     && !(OwnsClient(s'.calls[k].phase) && s'.calls[k].phase.client == c)
              ==> (Building(s', c) <==> Building(s, c))
  {
    forall c | Building(s, c) && !(OwnsClient(s.calls[k].phase) && s.calls[k].phase.client == c)
      ensures Building(s', c)
    {
      var l :| l in s.calls && OwnsClient(s.calls[l].phase) && s.calls[l].phase.client == c;
      assert l in s'.calls && s'.calls[l] == s.calls[l];
    }
  }

  lemma CompletePlaces(s: Pool, k: nat, now: int)
    requires Inv(s) && k in s.calls && OwnsClient(s.calls[k].phase)
    ensures var s' := Complete(s, k, s.calls[k].phase.client, now);
            forall c :: Stray(s', c) <==>
              Stray(s, c) || exists x :: x in s.connections && x.id == s.calls[k].tenant && x.client == c
  {
    var client := s.calls[k].phase.client;
    var s' := Complete(s, k, client, now);
    var conn := Connection(s.calls[k].tenant, client, now);
    PutInjective(s.connections, conn);
    BuildingMoves(s, s', k);
    forall c: nat
      ensures Stray(s', c) <==>
                Stray(s, c) || exists x :: x in s.connections && x.id == s.calls[k].tenant && x.client == c
    {
      if c == client {
        assert conn in s'.connections && Mapped(s', c) && Building(s, c);
      } else if x :| x in s.connections && x.client == c {
        assert Mapped(s, c);
        if x.id == conn.id {
          forall y | y in s'.connections ensures y.client != c {
            if y.client == c { SameConnection(s.connections, x, y); }
          }
        } else {
          forall y | y in s.connections && y.id == conn.id ensures y.client != c {
            if y.client == c { SameConnection(s.connections, x, y); }
          }
          assert x in s'.connections;
        }
      } else {
        assert !Mapped(s, c) && !Mapped(s', c);
      }
    }
  }

  lemma SweepPlaces(s: Pool, now: int)
    requires Inv(s)
    ensures forall c :: Stray(SweepStep(s, now), c) <==> Stray(s, c)
  {
    var s' := SweepStep(s, now);
    var gone := StaleClients(s.connections, now);
    FreshInjective(s.connections, now);
    assert multiset(s'.closed) == multiset(s.closed) + multiset(gone);
    forall c: nat ensures Stray(s', c) <==> Stray(s, c) {
      assert c in multiset(gone) <==> c in gone;
      if x :| x in s.connections && x.client == c {
        assert Mapped(s, c);
        if now - x.lastUsed <= IDLE_TIMEOUT_MS { assert x in s'.connections && Mapped(s', c); }
      } else {
        assert !Mapped(s, c) && !Mapped(s', c) && c !in gone;
      }
    }
  }

  lemma DropPlaces(s: Pool, x: Connection)
    requires Inv(s) && x in s.connections
    ensures var s' := s.(connections := Delete(s.connections, x.id), closed := s.closed + [x.client]);
            forall c :: Stray(s', c) <==> Stray(s, c)
  {
    var s' := s.(connections := Delete(s.connections, x.id), closed := s.closed + [x.client]);
    forall c: nat ensures Stray(s', c) <==> Stray(s, c) {
      if c == x.client {
        assert Mapped(s, c);
      } else if y :| y in s.connections && y.client == c {
        if y.id == x.id { SameConnection(s.connections, x, y); }
        assert y in s'.connections;
      } else {
        assert !Mapped(s, c) && !Mapped(s', c);
      }
    }
  }

  lemma TouchPlaces(s: Pool, t: string, now: int)
    ensures forall c :: Stray(s.(connections := Touch(s.connections, t, now)), c) <==> Stray(s, c)
  {
    var c, r := s.connections, Touch(s.connections, t, now);
    forall n: nat ensures Mapped(s.(connections := r), n) <==> Mapped(s, n) {
      if x :| x in r && x.client == n {
        var i :| 0 <= i < |r| && r[i] == x;
        assert c[i] in c;
      }
      if x :| x in c && x.client == n {
        var i :| 0 <= i < |c| && c[i] == x;
        assert r[i] in r;
      }
    }
  }

  lemma AdmitPlaces(s: Pool, t: string)
    requires s.nextCall !in s.calls
    ensures forall c :: Stray(Admit(s, t), c) <==> Stray(s, c)
  {
    forall c | Building(s, c) ensures Building(Admit(s, t), c) {
      var l :| l in s.calls && OwnsClient(s.calls[l].phase) && s.calls[l].phase.client == c;
      assert l in Admit(s, t).calls && Admit(s, t).calls[l] == s.calls[l];
    }
  }

  lemma GetPlaces(cfg: Config, s: Pool, t: string, now: int)
    requires Inv(s)
    ensures forall c :: Stray(GetStep(cfg, s, t, now), c) <==> Stray(s, c)
  {
    match AnswerOf(s, t)
    case Hit(_) => TouchPlaces(s, t, now);
    case Created(_) =>
      if |s.connections| >= cfg.maxConnections && s.connections != [] {
        DropPlaces(s, s.connections[OldestIndex(s.connections)]);
      }
      AdmitPlaces(EvictOldest(cfg, s), t);
    case _ =>
  }

  lemma SettlePlaces(s: Pool, k: nat)
    requires k in s.calls && !OwnsClient(s.calls[k].phase)
    ensures forall c :: Stray(SettleStep(s, k), c) <==> Stray(s, c)
  {
    forall c | Building(s, c) ensures Building(SettleStep(s, k), c) {
      var l :| l in s.calls && OwnsClient(s.calls[l].phase) && s.calls[l].phase.client == c;
      assert l in SettleStep(s, k).calls;
    }
  }

  lemma ResolvePlaces(s: Pool, k: nat, ok: bool)
    requires Inv(s) && k in s.calls && s.calls[k].phase.Resolving?
    ensures forall c :: Stray(ResolveStep(s, k, ok), c) <==> Stray(s, c)
  {
    var s' := ResolveStep(s, k, ok);
    BuildingMoves(s, s', k);
    forall c: nat ensures Stray(s', c) <==> Stray(s, c) {
      assert Mapped(s', c) <==> Mapped(s, c);
      if c == s.nextClient && ok { assert Building(s', c); }
    }
  }

  /** A creation gives up on its client; whether it was closed on the way decides the rest. */
  lemma FailPlaces(s: Pool, k: nat, closing: bool)
    requires Inv(s) && k in s.calls && OwnsClient(s.calls[k].phase)
    ensures var client := s.calls[k].phase.client;
            var s' := s.(calls := s.calls[k := Call(s.calls[k].tenant, Failed)],
                         closed := if closing then s.closed + [client] else s.closed);
            forall c :: Stray(s', c) <==> Stray(s, c) || (!closing && c == client)
  {
    var client := s.calls[k].phase.client;
    var s' := s.(calls := s.calls[k := Call(s.calls[k].tenant, Failed)],
                 closed := if closing then s.closed + [client] else s.closed);
    BuildingMoves(s, s', k);
    forall c: nat ensures Stray(s', c) <==> Stray(s, c) || (!closing && c == client) {
      assert Mapped(s', c) <==> Mapped(s, c);
      if c == client { assert Building(s, c) && !Mapped(s, c); }
    }
  }

  /** Nothing recovers an abandoned client, and a step abandons one exactly when `Strands` says so. */
  lemma StrandedExactlyWhen(cfg: Config, s: Pool, e: Event)
    requires Inv(s) && Enabled(s, e)
    ensures forall c :: Stray(s, c) ==> Stray(Step(cfg, s, e), c)
    ensures Strands(cfg, s, e) <==> exists c :: !Stray(s, c) && Stray(Step(cfg, s, e), c)
  {
    hide Inv, Stray;
    match e
    case Get(t, now) => GetPlaces(cfg, s, t, now);
    case Resolve(k, ok) => ResolvePlaces(s, k, ok);
    case Configure(k, ok, now) => ConfigurePlaces(cfg, s, k, ok, now);
    case Migrate(k, ok, now) => MigratePlaces(cfg, s, k, ok, now);
    case Settle(k) => SettlePlaces(s, k);
    case Sweep(now) => SweepPlaces(s, now);
    case Evict(t) => EvictPlaces(s, t);
  }

  lemma EvictPlaces(s: Pool, t: string)
    requires Inv(s)
    ensures forall c :: Stray(EvictStep(s, t), c) <==> Stray(s, c)
  {
    if Find(s.connections, t).Some? { DropPlaces(s, Find(s.connections, t).value); }
    var s1 := if Find(s.connections, t).Some? then
        s.(connections := Delete(s.connections, t), closed := s.closed + [Find(s.connections, t).value.client])
      else s;
    forall c: nat ensures Stray(EvictStep(s, t), c) <==> Stray(s1, c) { }
  }

  lemma MappedOver(s: Pool, k: nat, now: int)
    requires Inv(s) && k in s.calls && OwnsClient(s.calls[k].phase)
    ensures var s' := Complete(s, k, s.calls[k].phase.client, now);
            && (forall c :: Stray(s, c) ==> Stray(s', c))
            && (MappedTenant(s, s.calls[k].tenant) <==> exists c :: !Stray(s, c) && Stray(s', c))
  {
    var s' := Complete(s, k, s.calls[k].phase.client, now);
    CompletePlaces(s, k, now);
    if x :| x in s.connections && x.id == s.calls[k].tenant {
      assert Mapped(s, x.client);
      assert !Stray(s, x.client) && Stray(s', x.client);
    }
  }

  lemma ConfigurePlaces(cfg: Config, s: Pool, k: nat, ok: bool, now: int)
    requires Inv(s) && Enabled(s, Configure(k, ok, now))
    ensures var s' := ConfigureStep(cfg, s, k, ok, now);
            && (forall c :: Stray(s, c) ==> Stray(s', c))
            && (Strands(cfg, s, Configure(k, ok, now)) <==> exists c :: !Stray(s, c) && Stray(s', c))
  {
    var s' := ConfigureStep(cfg, s, k, ok, now);
    if !ok {
      FailPlaces(s, k, false);
      var client := s.calls[k].phase.client;
      assert Building(s, client);
      assert !Stray(s, client) && Stray(s', client);
    } else if cfg.migrateOnConnect && s.calls[k].tenant !in s.migrated {
      BuildingMoves(s, s', k);
      forall c: nat ensures Stray(s', c) <==> Stray(s, c) {
        assert Mapped(s', c) <==> Mapped(s, c);
        if c == s.calls[k].phase.client { assert Building(s, c) && Building(s', c); }
      }
    } else {
      MappedOver(s, k, now);
    }
  }

  lemma MigratePlaces(cfg: Config, s: Pool, k: nat, ok: bool, now: int)
    requires Inv(s) && Enabled(s, Migrate(k, ok, now))
    ensures var s' := MigrateStep(s, k, ok, now);
            && (forall c :: Stray(s, c) ==> Stray(s', c))
            && (Strands(cfg, s, Migrate(k, ok, now)) <==> exists c :: !Stray(s, c) && Stray(s', c))
  {
    if ok {
      var s1 := s.(migrated := s.migrated + {s.calls[k].tenant});
      forall c: nat ensures Stray(s1, c) <==> Stray(s, c) { }
      MappedOver(s1, k, now);
    } else {
      FailPlaces(s, k, true);
    }
  }

  /** Some step of the run abandons a client. */
  ghost predicate RunStrands(cfg: Config, evs: seq<Event>)
    requires Run(cfg, evs).Some?
  {
    evs != [] && (RunStrands(cfg, evs[..|evs| - 1]) || Strands(cfg, Run(cfg, evs[..|evs| - 1]).value, evs[|evs| - 1]))
  }

  /**
   * After any run every opened client is in exactly one place (in creation,
   * mapped, or closed once) if and only if no step of the run was one that strands.
   */
  lemma {:induction false} EveryClientAccountedExactlyWhen(cfg: Config, evs: seq<Event>)
    requires Run(cfg, evs).Some?
    ensures var s := Run(cfg, evs).value;
            (forall c: nat :: c < s.nextClient ==> Places(s, c) == 1) <==> !RunStrands(cfg, evs)
  {
    RunInv(cfg, evs);
    var s := Run(cfg, evs).value;
    forall c: nat ensures Places(s, c) <= 1 { AtMostOnePlace(s, c); }
    NoStrayExactlyWhen(cfg, evs);
    assert forall c: nat :: c < s.nextClient ==> (Stray(s, c) <==> Places(s, c) != 1);
  }

  lemma {:induction false} NoStrayExactlyWhen(cfg: Config, evs: seq<Event>)
    requires Run(cfg, evs).Some?
    ensures RunStrands(cfg, evs) <==> exists c :: Stray(Run(cfg, evs).value, c)
  {
    if evs != [] {
      var before := evs[..|evs| - 1];
      NoStrayExactlyWhen(cfg, before);
      RunInv(cfg, before);
      StrandedExactlyWhen(cfg, Run(cfg, before).value, evs[|evs| - 1]);
    }
  }
}
