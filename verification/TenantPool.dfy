/**
 * The per-tenant connection pool of db/db.ts: an insertion-ordered map of live
 * connections, an in-flight map that deduplicates creations, LRU eviction at
 * capacity, an idle sweep, manual eviction and migrations on first connection.
 *
 * Every `await` is an interleaving point.  A pool operation is therefore one of
 * the atomic steps of `Event`; a suspended call of `getTenantDB` that is creating
 * a connection is an entry of `calls`.  A `db` is identified with the client that
 * it wraps, and clients are numbered in the order in which they are opened.
 */
module TenantPool {
  import opened Wrappers

  const IDLE_TIMEOUT_MS := 5 * 60 * 1000

  datatype Config = Config(maxConnections: nat, migrateOnConnect: bool)

  datatype Connection = Connection(id: string, client: nat, lastUsed: int)

  /** How far a creation has come.  `Returned` and `Failed` still await the `finally` of `getTenantDB`. */
  datatype Phase =
    | Resolving
    | Configuring(client: nat)
    | Migrating(client: nat)
    | Returned(client: nat)
    | Failed

  datatype Call = Call(tenant: string, phase: Phase)

  datatype Pool = Pool(
    connections: seq<Connection>,
    inflight: map<string, nat>,
    migrated: set<string>,
    calls: map<nat, Call>,
    nextCall: nat,
    nextClient: nat,
    closed: seq<nat>)

  /** What the synchronous part of `getTenantDB` hands to its caller. */
  datatype Answer =
    | MissingEnvironment
    | Hit(client: nat)
    | Join(call: nat)
    | Created(call: nat)

  datatype Event =
    | Get(tenant: string, now: int)
    | Resolve(call: nat, ok: bool)
    | Configure(call: nat, ok: bool, now: int)
    | Migrate(call: nat, ok: bool, now: int)
    | Settle(call: nat)
    | Sweep(now: int)
    | Evict(tenant: string)

  const Empty := Pool([], map[], {}, map[], 0, 0, [])

  // ----- the insertion-ordered map of connections

  function Find(c: seq<Connection>, id: string): (r: Option<Connection>)
    ensures r.Some? ==> r.value in c && r.value.id == id
    ensures r.None? <==> forall x :: x in c ==> x.id != id
  {
    if c == [] then None
    else if c[0].id == id then Some(c[0])
    else Find(c[1..], id)
  }

  function Delete(c: seq<Connection>, id: string): (r: seq<Connection>)
    ensures forall x :: x in r <==> x in c && x.id != id
    ensures |r| <= |c|
  {
    if c == [] then []
    else if c[0].id == id then Delete(c[1..], id)
    else [c[0]] + Delete(c[1..], id)
  }

  /** Overwrites in place when the key exists and appends otherwise, as a JavaScript Map does. */
  function Put(c: seq<Connection>, conn: Connection): (r: seq<Connection>)
    ensures conn in r
    ensures forall x :: x in r ==> x == conn || x in c
    ensures |c| <= |r| <= |c| + 1
  {
    if c == [] then [conn]
    else if c[0].id == conn.id then [conn] + c[1..]
    else [c[0]] + Put(c[1..], conn)
  }

  function Touch(c: seq<Connection>, id: string, now: int): (r: seq<Connection>)
    ensures |r| == |c|
    ensures forall i :: 0 <= i < |c| ==> r[i] == if c[i].id == id then c[i].(lastUsed := now) else c[i]
  {
    seq(|c|, i requires 0 <= i < |c| => if c[i].id == id then c[i].(lastUsed := now) else c[i])
  }

  /** The scan's choice: least `lastUsed`, the earliest inserted among equals. */
  ghost predicate IsOldest(c: seq<Connection>, i: int) {
    && 0 <= i < |c|
    && (forall j :: 0 <= j < i ==> c[i].lastUsed < c[j].lastUsed)
    && (forall j :: i <= j < |c| ==> c[i].lastUsed <= c[j].lastUsed)
  }

  function OldestIndex(c: seq<Connection>): (i: nat)
    requires c != []
    ensures IsOldest(c, i)
  {
    if |c| == 1 then 0
    else
      var i := OldestIndex(c[..|c| - 1]);
      if c[|c| - 1].lastUsed < c[i].lastUsed then |c| - 1 else i
  }

  function KeepFresh(c: seq<Connection>, now: int): (r: seq<Connection>)
  {
    if c == [] then []
    else if now - c[0].lastUsed > IDLE_TIMEOUT_MS then KeepFresh(c[1..], now)
    else [c[0]] + KeepFresh(c[1..], now)
  }

  function StaleClients(c: seq<Connection>, now: int): (r: seq<nat>)
  {
    if c == [] then []
    else if now - c[0].lastUsed > IDLE_TIMEOUT_MS then [c[0].client] + StaleClients(c[1..], now)
    else StaleClients(c[1..], now)
  }

  // ----- the atomic steps

  function AnswerOf(s: Pool, tenant: string): Answer {
    if tenant == "" then MissingEnvironment
    else match Find(s.connections, tenant)
      case Some(conn) => Hit(conn.client)
      case None => if tenant in s.inflight then Join(s.inflight[tenant]) else Created(s.nextCall)
  }

  function EvictOldest(cfg: Config, s: Pool): Pool {
    if |s.connections| >= cfg.maxConnections && s.connections != [] then
      var victim := s.connections[OldestIndex(s.connections)];
      s.(connections := Delete(s.connections, victim.id), closed := s.closed + [victim.client])
    else s
  }

  function GetStep(cfg: Config, s: Pool, tenant: string, now: int): Pool {
    match AnswerOf(s, tenant)
    case MissingEnvironment => s
    case Hit(_) => s.(connections := Touch(s.connections, tenant, now))
    case Join(_) => s
    case Created(_) => Admit(EvictOldest(cfg, s), tenant)
  }

  /** A new creation is registered in flight. */
  function Admit(s: Pool, tenant: string): Pool {
    s.(calls := s.calls[s.nextCall := Call(tenant, Resolving)],
       inflight := s.inflight[tenant := s.nextCall],
       nextCall := s.nextCall + 1)
  }

  function Complete(s: Pool, k: nat, client: nat, now: int): Pool
    requires k in s.calls
  {
    s.(connections := Put(s.connections, Connection(s.calls[k].tenant, client, now)),
       calls := s.calls[k := s.calls[k].(phase := Returned(client))])
  }

  function ResolveStep(s: Pool, k: nat, ok: bool): Pool
    requires k in s.calls
  {
    if ok then s.(calls := s.calls[k := s.calls[k].(phase := Configuring(s.nextClient))],
                  nextClient := s.nextClient + 1)
    else s.(calls := s.calls[k := s.calls[k].(phase := Failed)])
  }

  /** A throw from the pragma step abandons the client without closing it. */
  function ConfigureStep(cfg: Config, s: Pool, k: nat, ok: bool, now: int): Pool
    requires k in s.calls && s.calls[k].phase.Configuring?
  {
    var Call(tenant, phase) := s.calls[k];
    if !ok then s.(calls := s.calls[k := Call(tenant, Failed)])
    else if cfg.migrateOnConnect && tenant !in s.migrated then
      s.(calls := s.calls[k := Call(tenant, Migrating(phase.client))])
    else Complete(s, k, phase.client, now)
  }

  function MigrateStep(s: Pool, k: nat, ok: bool, now: int): Pool
    requires k in s.calls && s.calls[k].phase.Migrating?
  {
    var Call(tenant, phase) := s.calls[k];
    if ok then Complete(s.(migrated := s.migrated + {tenant}), k, phase.client, now)
    else s.(calls := s.calls[k := Call(tenant, Failed)], closed := s.closed + [phase.client])
  }

  /** The `finally` deletes by tenant, whichever call the in-flight entry belongs to. */
  function SettleStep(s: Pool, k: nat): Pool
    requires k in s.calls
  {
    s.(inflight := s.inflight - {s.calls[k].tenant}, calls := s.calls - {k})
  }

  function SweepStep(s: Pool, now: int): Pool {
    s.(connections := KeepFresh(s.connections, now), closed := s.closed + StaleClients(s.connections, now))
  }

  function EvictStep(s: Pool, tenant: string): Pool {
    match Find(s.connections, tenant)
    case Some(conn) =>
      s.(connections := Delete(s.connections, tenant),
         closed := s.closed + [conn.client],
         inflight := s.inflight - {tenant})
    case None => s.(inflight := s.inflight - {tenant})
  }

  predicate Enabled(s: Pool, e: Event) {
    match e
    case Resolve(k, _) => k in s.calls && s.calls[k].phase.Resolving?
    case Configure(k, _, _) => k in s.calls && s.calls[k].phase.Configuring?
    case Migrate(k, _, _) => k in s.calls && s.calls[k].phase.Migrating?
    case Settle(k) => k in s.calls && (s.calls[k].phase.Returned? || s.calls[k].phase.Failed?)
    case _ => true
  }

  function Step(cfg: Config, s: Pool, e: Event): Pool
    requires Enabled(s, e)
  {
    match e
    case Get(t, now) => GetStep(cfg, s, t, now)
    case Resolve(k, ok) => ResolveStep(s, k, ok)
    case Configure(k, ok, now) => ConfigureStep(cfg, s, k, ok, now)
    case Migrate(k, ok, now) => MigrateStep(s, k, ok, now)
    case Settle(k) => SettleStep(s, k)
    case Sweep(now) => SweepStep(s, now)
    case Evict(t) => EvictStep(s, t)
  }

  // ----- the module state and the code that updates it

  lemma OldestIsUnique(c: seq<Connection>, i: int, j: int)
    requires IsOldest(c, i) && IsOldest(c, j)
    ensures i == j
  {
    assert i <= j ==> c[i].lastUsed <= c[j].lastUsed;
    assert j <= i ==> c[j].lastUsed <= c[i].lastUsed;
  }

  lemma SweepHead(c: seq<Connection>, i: nat, now: int)
    requires i < |c|
    ensures var stale := now - c[i].lastUsed > IDLE_TIMEOUT_MS;
            && KeepFresh(c[i..], now) == (if stale then [] else [c[i]]) + KeepFresh(c[i + 1..], now)
            && StaleClients(c[i..], now)
                 == (if stale then [c[i].client] else []) + StaleClients(c[i + 1..], now)
  {
    assert c[i..][1..] == c[i + 1..];
  }

  class TenantConnections {
    const cfg: Config
    var connections: seq<Connection>
    var inflight: map<string, nat>
    var migrated: set<string>
    var calls: map<nat, Call>
    var nextCall: nat
    var nextClient: nat
    var closed: seq<nat>

    ghost function State(): Pool
      reads this
    {
      Pool(connections, inflight, migrated, calls, nextCall, nextClient, closed)
    }

    constructor (cfg: Config)
      ensures this.cfg == cfg && State() == Empty
    {
      this.cfg := cfg;
      connections, inflight, migrated, calls := [], map[], {}, map[];
      nextCall, nextClient, closed := 0, 0, [];
    }

    /** db/db.ts:182-202, up to the first `await` of a creation. */
    method GetTenantDB(environmentId: string, now: int) returns (answer: Answer)
      modifies this
      ensures answer == AnswerOf(old(State()), environmentId)
      ensures State() == Step(cfg, old(State()), Get(environmentId, now))
    {
      if environmentId == "" {
        return MissingEnvironment;
      }
      var existing := Find(connections, environmentId);
      if existing.Some? {
        connections := Touch(connections, environmentId, now);
        return Hit(existing.value.client);
      }
      if environmentId in inflight {
        return Join(inflight[environmentId]);
      }
      BeginCreation();
      answer := Created(nextCall);
      calls := calls[nextCall := Call(environmentId, Resolving)];
      inflight := inflight[environmentId := nextCall];
      nextCall := nextCall + 1;
    }

    /** The least recently used entry goes when the map is at capacity. */
    method BeginCreation()
      modifies this
      ensures State() == EvictOldest(cfg, old(State()))
    {
      if |connections| >= cfg.maxConnections {
        var oldest: Option<int> := None;
        var n := 0;
        while n < |connections|
          invariant 0 <= n <= |connections|
          invariant oldest.None? <==> n == 0
          invariant oldest.Some? ==> IsOldest(connections[..n], oldest.value)
          invariant State() == old(State())
        {
          if oldest.None? || connections[n].lastUsed < connections[oldest.value].lastUsed {
            oldest := Some(n);
          }
          n := n + 1;
        }
        if oldest.Some? {
          assert connections[..n] == connections;
          OldestIsUnique(connections, oldest.value, OldestIndex(connections));
          var conn := connections[oldest.value];
          closed := closed + [conn.client];
          connections := Delete(connections, conn.id);
        }
      }
    }

    /** The directory or the credentials are ready, and a client is opened; or either has thrown. */
    method ResumeResolved(k: nat, ok: bool)
      requires Enabled(State(), Resolve(k, ok))
      modifies this
      ensures State() == Step(cfg, old(State()), Resolve(k, ok))
    {
      if ok {
        calls := calls[k := calls[k].(phase := Configuring(nextClient))];
        nextClient := nextClient + 1;
      } else {
        calls := calls[k := calls[k].(phase := Failed)];
      }
    }

    method ResumeConfigured(k: nat, ok: bool, now: int)
      requires Enabled(State(), Configure(k, ok, now))
      modifies this
      ensures State() == Step(cfg, old(State()), Configure(k, ok, now))
    {
      var tenant, client := calls[k].tenant, calls[k].phase.client;
      if !ok {
        calls := calls[k := Call(tenant, Failed)];
      } else if cfg.migrateOnConnect && tenant !in migrated {
        calls := calls[k := Call(tenant, Migrating(client))];
      } else {
        connections := Put(connections, Connection(tenant, client, now));
        calls := calls[k := Call(tenant, Returned(client))];
      }
    }

    method ResumeMigrated(k: nat, ok: bool, now: int)
      requires Enabled(State(), Migrate(k, ok, now))
      modifies this
      ensures State() == Step(cfg, old(State()), Migrate(k, ok, now))
    {
      var tenant, client := calls[k].tenant, calls[k].phase.client;
      if ok {
        migrated := migrated + {tenant};
        connections := Put(connections, Connection(tenant, client, now));
        calls := calls[k := Call(tenant, Returned(client))];
      } else {
        closed := closed + [client];
        calls := calls[k := Call(tenant, Failed)];
      }
    }

    method Finally(k: nat)
      requires Enabled(State(), Settle(k))
      modifies this
      ensures State() == Step(cfg, old(State()), Settle(k))
    {
      inflight := inflight - {calls[k].tenant};
      calls := calls - {k};
    }

    /** db/db.ts:324-332. */
    method SweepIdle(now: int)
      modifies this
      ensures State() == Step(cfg, old(State()), Sweep(now))
    {
      var kept: seq<Connection> := [];
      var i := 0;
      while i < |connections|
        invariant 0 <= i <= |connections|
        invariant kept + KeepFresh(connections[i..], now) == KeepFresh(connections, now)
        invariant closed + StaleClients(connections[i..], now) == old(closed) + StaleClients(connections, now)
        modifies `closed
      {
        SweepHead(connections, i, now);
        var conn := connections[i];
        if now - conn.lastUsed > IDLE_TIMEOUT_MS {
          closed := closed + [conn.client];
        } else {
          kept := kept + [conn];
        }
        i := i + 1;
      }
      connections := kept;
    }

    /** db/db.ts:334-341. */
    method EvictTenantDB(environmentId: string)
      modifies this
      ensures State() == Step(cfg, old(State()), Evict(environmentId))
    {
      var cached := Find(connections, environmentId);
      if cached.Some? {
        closed := closed + [cached.value.client];
        connections := Delete(connections, environmentId);
      }
      inflight := inflight - {environmentId};
    }
  }
}
